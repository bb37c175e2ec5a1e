/** Branches of the NAND core that leave something stale behind, each with an input that shows it. */
module StaleState {
  import opened Bytes
  import opened Geometry
  import opened OobLayout
  import opened NandSpec
  import opened PageCache
  import opened NandDriver
  import opened SwEcc
  import opened SwNand

  // ---------------------------------------------------------------- reads through the page buffer

  /**
   A partial read with an OOB buffer refills the page buffer but not pagebuf: with page p cached, page q
   read in part with its OOB bytes, the next read of page p delivers the bytes of page q.
   */
  lemma OobReadLeavesStaleCache(c: Config, cells: seq<Page>, cache: Cache, p: nat, q: nat, col: nat, bytes: nat, mode: Mode)
    requires ValidCells(c, cells) && ValidCache(c, cells, cache) && !c.subpageRead && !mode.Raw?
    requires cache.pagebuf == p && q < |cells| && bytes < c.ws && col + bytes <= c.ws
    ensures var first := ReadStep(c, cells, cache, q, col, bytes, mode, true, 0);
            var second := ReadStep(c, cells, first.cache, p, col, bytes, mode, false, 0);
            second.data == Decode(c, cells[q]).data[col..col + bytes]
  {
  }

  /** The same after a partial read of a page that fails to decode. */
  lemma FailedReadLeavesStaleCache(c: Config, cells: seq<Page>, cache: Cache, p: nat, q: nat, col: nat, bytes: nat,
                                   mode: Mode)
    requires ValidCells(c, cells) && ValidCache(c, cells, cache) && !c.subpageRead && !mode.Raw?
    requires cache.pagebuf == p && p != q && q < |cells| && bytes < c.ws && col + bytes <= c.ws
    requires Decode(c, cells[q]).failed > 0
    ensures var first := ReadStep(c, cells, cache, q, col, bytes, mode, false, 0);
            var second := ReadStep(c, cells, first.cache, p, col, bytes, mode, false, 0);
            second.data == Decode(c, cells[q]).data[col..col + bytes]
  {
  }

  /**
   A partial raw read caches uncorrected bytes, be it of no bytes at all: an ordinary read of any part of the page then
   delivers them as they are.
   */
  lemma RawReadCachesRawBytes(c: Config, cells: seq<Page>, cache: Cache, p: nat, col: nat, bytes: nat, col': nat, bytes': nat)
    requires ValidCells(c, cells) && ValidCache(c, cells, cache) && !c.subpageRead
    requires cache.pagebuf != p && p < |cells| && bytes < c.ws && col + bytes <= c.ws && col' + bytes' <= c.ws
    ensures var first := ReadStep(c, cells, cache, p, col, bytes, Raw, false, 0);
            var second := ReadStep(c, cells, first.cache, p, col', bytes', Place, false, 0);
            second.data == cells[p][..c.ws][col'..col' + bytes']
  {
  }

  // ---------------------------------------------------------------- what a cached page hides

  /** A device of one two-byte page whose code takes every page for an erased one with one flipped bit */
  ghost predicate Mends(c: Config) {
    && c.ws == 2 && c.oobSize == 2 && !c.subpageRead && Times(c.numChips, c.ppc) == 1
    && forall page: Page :: |page| == 4 ==> Decode(c, page) == PageOut([0xFF, 0xFF], page[2..], 0, 1)
  }

  ghost function Mending(): (c: Config)
    ensures Mends(c)
  {
    var plain := Plain(1, 0, 0, 1, 2);
    assert Pow2(1) == 2 && Pow2(0) == 1;
    plain.(codec := plain.codec.(decode := (page: Page) =>
      if |page| == 4 then PageOut([0xFF, 0xFF], page[2..], 0, 1) else PageOut([], [], 0, 0)))
  }

  lemma MendsSomeDevice()
    ensures exists c: Config :: Mends(c)
  {
    var c := Mending();
    assert Mends(c);
  }

  /** A page of zeros on such a device, and the cache after it was read */
  lemma MendedPage(c: Config, page: Page, cells: seq<Page>, cache: Cache)
    requires Mends(c) && page == [0, 0, 0xFF, 0xFF] && cells == [page] && cache == Cache(0, [0xFF, 0xFF])
    ensures ValidCells(c, cells) && ValidCache(c, cells, cache) && Coherent(c, cells, cache)
    ensures Room(c.ws, |cells|, 0, 0) == 2
  {
    assert Room(2, 1, 0, 0) == 2 - 0 + Room(2, 1, 1, 0);
  }

  /** Cached, the page is delivered corrected to a raw read; without the cache a raw read delivers the zeros. */
  lemma CachedPageHidesRaw(c: Config, page: Page, cells: seq<Page>, cache: Cache)
    requires Mends(c) && page == [0, 0, 0xFF, 0xFF] && cells == [page] && cache == Cache(0, [0xFF, 0xFF])
    ensures ValidCells(c, cells) && ValidCache(c, cells, cache) && Coherent(c, cells, cache)
    ensures ReadStep(c, cells, cache, 0, 0, 2, Raw, false, 0).data == [0xFF, 0xFF]
    ensures PageRead(c, page, 0, 2, Raw, false).data == [0, 0]
  {
    MendedPage(c, page, cells, cache);
    assert page[..2] == [0, 0];
    assert page[..2][0..0 + 2] == page[..2];
    assert cache.databuf[0..0 + 2] == [0xFF, 0xFF];
  }

  /** Cached, an ordinary read of it returns 0; without the cache it returns -EUCLEAN. */
  lemma CachedPageHidesCorrection(c: Config, page: Page, cells: seq<Page>, cache: Cache)
    requires Mends(c) && page == [0, 0, 0xFF, 0xFF] && cells == [page] && cache == Cache(0, [0xFF, 0xFF])
    ensures ValidCells(c, cells) && ValidCache(c, cells, cache) && Coherent(c, cells, cache)
    ensures Room(c.ws, |cells|, 0, 0) == 2
    ensures var r := CachedRead(c, cells, cache, 0, 0, 2, Place, NoOobRead, NOTHING).out;
            ReadRet(r.failed, r.corrected) == Ok
    ensures var u := ReadPages(c, cells, 0, 0, 2, Place, NoOobRead); ReadRet(u.failed, u.corrected) == EUClean
  {
    MendedPage(c, page, cells, cache);
    ReadLast(c, cells, 0, 0, 2, Place, NoOobRead);
    HitDelivers(c, cells, cache, 0, Place);
  }

  // ---------------------------------------------------------------- pages above 2 GiB

  /**
   A whole-page write over a cached page that starts at 2 GiB or above, and then a read of the page: the write is
   carried out, and the read delivers the bytes from before it.
   */
  method StaleAboveTwoGiB(chip: NandChip, data: seq<byte>, mode: Mode, env: Env) returns (ret: Ret, back: seq<byte>)
    requires chip.Valid() && chip.CacheCoherent() && 0 <= chip.pagebuf && 0x8000_0000 <= chip.pagebuf * chip.c.ws
    requires |data| == chip.c.ws <= 0x1_0000_0000 && !mode.Raw? && ValidEnv(chip.c, env) && !ProgFails(env, 0)
    requires WriteChecks(chip.c, chip.pagebuf * chip.c.ws, |data|, mode, NoOob, env).Ok?
    modifies chip, chip.buffers
    ensures chip.Valid() && |chip.cells| == |old(chip.cells)| && chip.pagebuf == old(chip.pagebuf)
    ensures chip.cells[chip.pagebuf] ==
            And(old(chip.cells[chip.pagebuf]), TurnImage(chip.c, 0, data, mode, NoOob, Blank(chip.c.oobSize)).bits)
    ensures ret.Ok? && back == Decode(chip.c, old(chip.cells[chip.pagebuf])).data
  {
    var p, to := chip.pagebuf, chip.pagebuf * chip.c.ws;
    ghost var cells0, cache, spare := chip.cells, chip.CacheOf(), chip.buffers[chip.c.ws..];
    OffsetOfPage(chip.c, p);
    MulStrict(p, |chip.cells|, chip.c.ws);
    var done, count := chip.DoWriteOps(to, data, mode, NoOob, env);
    HighPageKept(chip.c, env, cells0, cache, spare, p, to, data, mode, chip.cells, chip.CacheOf(), chip.buffers[chip.c.ws..],
                 done, count);
    ghost var failed, corrected := chip.failed, chip.corrected;
    var oob;
    ret, back, oob := chip.DoReadOps(to, chip.c.ws, mode, NoOobRead);
    HitRead(chip.c, chip.cells, cache, p, to, mode, chip.CacheOf(), ret, back, oob, chip.failed - failed,
            chip.corrected - corrected);
  }

  /** The write is carried out, and the cache is as it was. */
  lemma HighPageKept(c: Config, env: Env, cells: seq<Page>, cache: Cache, spare: seq<byte>, p: nat, to: nat, data: seq<byte>,
                     mode: Mode, cells': seq<Page>, cache': Cache, spare': seq<byte>, ret: Ret, retlen: nat)
    requires ValidEnv(c, env) && ValidCells(c, cells) && ValidCache(c, cells, cache) && |spare| == c.oobSize
    requires ValidCells(c, cells') && ValidCache(c, cells', cache') && InDevice(c, |cells|, to, |data|)
    requires WriteDone(c, env, cells, cache, spare, to, data, mode, NoOob, cells', cache', spare', ret, retlen)
    requires p == cache.pagebuf && to == p * c.ws >= 0x8000_0000 && PageOf(c, to) == p && ColOf(c, to) == 0
    requires |data| == c.ws <= 0x1_0000_0000 && !ProgFails(env, 0)
    requires WriteChecks(c, to, |data|, mode, NoOob, env).Ok?
    ensures cache' == cache
    ensures cells'[p] == And(cells[p], TurnImage(c, 0, data, mode, NoOob, Blank(c.oobSize)).bits)
  {
    ChecksAre(c, to, |data|, mode, NoOob, env);
    GuardFiresExactly(to, to, |data|);
    WriteDoneCache(c, env, cells, cache, spare, to, data, mode, NoOob, cells', cache', spare', ret, retlen);
    WriteDoneOut(c, env, cells, cache, spare, to, data, mode, NoOob, cells', cache', spare', ret, retlen);
    OnePageWritten(c, env, cells, p, data, mode);
  }

  lemma HitRead(c: Config, cells: seq<Page>, cache: Cache, p: nat, to: nat, mode: Mode, cache': Cache, ret: Ret,
                data: seq<byte>, oob: seq<byte>, failed: int, corrected: int)
    requires ValidCells(c, cells) && ValidCache(c, cells, cache) && cache.pagebuf == p && to == p * c.ws
    requires PageOf(c, to) == p && ColOf(c, to) == 0 && to < |cells| * c.ws && InDevice(c, |cells|, to, c.ws)
    requires ReadDone(c, cells, cache, to, c.ws, mode, NoOobRead, cache', ret, data, oob, failed, corrected)
    ensures cache' == cache && ret == Ok && data == cache.databuf
  {
    RequestFits(c, |cells|, to, c.ws);
    HitDelivers(c, cells, cache, p, mode);
  }

  lemma OnePageWritten(c: Config, env: Env, cells: seq<Page>, p: nat, data: seq<byte>, mode: Mode)
    requires ValidCells(c, cells) && ValidEnv(c, env) && p < |cells| && |data| == c.ws && !ProgFails(env, 0)
    requires |data| <= Room(c.ws, |cells|, p, 0)
    ensures WritePages(c, env, cells, 0, p, 0, data, mode, NoOob, Blank(c.oobSize)).cells[p] ==
            And(cells[p], TurnImage(c, 0, data, mode, NoOob, Blank(c.oobSize)).bits)
  {
    var image := TurnImage(c, 0, data, mode, NoOob, Blank(c.oobSize));
    var cells' := Program(c, cells, p, image.bits, env, 0);
    assert data[..|data|] == data && Min(c.ws - 0, |data|) == |data|;
    WriteLast(c, env, cells, 0, p, 0, data, |data|, mode, NoOob, Blank(c.oobSize), image, cells');
    assert cells'[p] == And(cells[p], image.bits);
  }

  /** A read of one page that is cached delivers what the page buffer holds, whatever the flash holds. */
  lemma HitDelivers(c: Config, cells: seq<Page>, cache: Cache, p: nat, mode: Mode)
    requires ValidCells(c, cells) && ValidCache(c, cells, cache) && cache.pagebuf == p && p < |cells|
    requires c.ws <= Room(c.ws, |cells|, p, 0)
    ensures var r := CachedRead(c, cells, cache, p, 0, c.ws, mode, NoOobRead, NOTHING);
            r.cache == cache && r.out.data == cache.databuf && r.out.failed == 0 && r.out.corrected == 0
  {
    var s := ReadStep(c, cells, cache, p, 0, c.ws, mode, false, 0);
    CachedLast(c, cells, cache, p, 0, c.ws, mode, NoOobRead, NOTHING, s,
               Extend(NOTHING, s, TurnPiece(c, cells[p], 0, c.ws, mode, NoOobRead)));
    assert cache.databuf[0..0 + c.ws] == cache.databuf;
    assert [] + cache.databuf == cache.databuf;
  }

  // ---------------------------------------------------------------- the OOB staging buffer

  /** The positions of the OOB area a page's share of the client bytes fills */
  ghost function Filled(c: Config, mode: Mode, ow: OobWrite): (r: seq<nat>)
    requires ow.OobWrite? && OobFits(c, mode, ow)
    ensures |r| == OobTake(c, mode, ow) && Within(r, c.oobSize)
  {
    SlotsWithin(c.free, c.oobSize, mode);
    Slots(c.free, c.oobSize, mode)[ow.offs..ow.offs + OobTake(c, mode, ow)]
  }

  /** What a page of a write with an OOB buffer sends to its OOB area */
  ghost function OobSent(c: Config, e: Ecc, data: seq<byte>, mode: Mode, ow: OobWrite, spare: seq<byte>): (r: seq<byte>)
    requires (mode.Raw? || SwDevice(c, e)) && |data| == c.ws && |spare| == c.oobSize && ow.OobWrite? && OobFits(c, mode, ow)
    ensures |r| == c.oobSize
  {
    var staged := Scatter(spare, Filled(c, mode, ow), ow.bytes[..OobTake(c, mode, ow)]);
    if mode.Raw? then staged else Scatter(staged, e.pos, Codes(e, data, e.steps))
  }

  lemma SentIs(c: Config, e: Ecc, data: seq<byte>, mode: Mode, ow: OobWrite, spare: seq<byte>)
    requires (mode.Raw? || SwDevice(c, e)) && |data| == c.ws && |spare| == c.oobSize && ow.OobWrite? && OobFits(c, mode, ow)
    ensures PageImage(c, data, StageOob(c, spare, mode, ow), mode) ==
            Image(data + OobSent(c, e, data, mode, ow, spare), OobSent(c, e, data, mode, ow, spare))
  {
    if !mode.Raw? {
      assert Encode(c, data, StageOob(c, spare, mode, ow)) == SwEncode(e, data, StageOob(c, spare, mode, ow));
    }
  }

  /** A byte that is written to is what was written, whatever was there. */
  lemma {:induction false} WrittenOver(a: seq<byte>, b: seq<byte>, pos: seq<nat>, bytes: seq<byte>, q: nat)
    requires |a| == |b| && Within(pos, |a|) && |bytes| == |pos| && q in pos
    ensures Scatter(a, pos, bytes)[q] == Scatter(b, pos, bytes)[q]
    decreases |pos|
  {
    if q in pos[1..] {
      WrittenOver(a[pos[0] := bytes[0]], b[pos[0] := bytes[0]], pos[1..], bytes[1..], q);
    } else {
      ScatterOther(a[pos[0] := bytes[0]], pos[1..], bytes[1..], q);
      ScatterOther(b[pos[0] := bytes[0]], pos[1..], bytes[1..], q);
    }
  }

  /** The client or the code has a byte for position q. */
  ghost predicate Supplied(c: Config, e: Ecc, mode: Mode, ow: OobWrite, q: nat)
    requires ow.OobWrite? && OobFits(c, mode, ow)
  {
    q in Filled(c, mode, ow) || (!mode.Raw? && q in e.pos)
  }

  lemma SuppliedByte(c: Config, e: Ecc, data: seq<byte>, mode: Mode, ow: OobWrite, a: seq<byte>, b: seq<byte>, q: nat)
    requires (mode.Raw? || SwDevice(c, e)) && |data| == c.ws && |a| == |b| == c.oobSize && ow.OobWrite? && OobFits(c, mode, ow)
    requires q < c.oobSize && Supplied(c, e, mode, ow, q)
    ensures OobSent(c, e, data, mode, ow, a)[q] == OobSent(c, e, data, mode, ow, b)[q]
  {
    var pos, bytes := Filled(c, mode, ow), ow.bytes[..OobTake(c, mode, ow)];
    var x, y := Scatter(a, pos, bytes), Scatter(b, pos, bytes);
    if q in pos {
      WrittenOver(a, b, pos, bytes, q);
    }
    if !mode.Raw? {
      if q in e.pos {
        WrittenOver(x, y, e.pos, Codes(e, data, e.steps), q);
      } else {
        ScatterOther(x, e.pos, Codes(e, data, e.steps), q);
        ScatterOther(y, e.pos, Codes(e, data, e.steps), q);
      }
    }
  }

  /** A byte that neither supplies goes out as the staging buffer held it. */
  lemma StaleByte(c: Config, e: Ecc, data: seq<byte>, mode: Mode, ow: OobWrite, spare: seq<byte>, q: nat)
    requires (mode.Raw? || SwDevice(c, e)) && |data| == c.ws && |spare| == c.oobSize && ow.OobWrite? && OobFits(c, mode, ow)
    requires q < c.oobSize && !Supplied(c, e, mode, ow, q)
    ensures OobSent(c, e, data, mode, ow, spare)[q] == spare[q]
  {
    var pos, bytes := Filled(c, mode, ow), ow.bytes[..OobTake(c, mode, ow)];
    ScatterOther(spare, pos, bytes, q);
    if !mode.Raw? {
      ScatterOther(Scatter(spare, pos, bytes), e.pos, Codes(e, data, e.steps), q);
    }
  }

  /** What a page of a write with an OOB buffer sends does not depend on what the staging buffer held. */
  ghost predicate FreshWrite(c: Config, data: seq<byte>, mode: Mode, ow: OobWrite)
    requires |data| == c.ws && OobFits(c, mode, ow)
  {
    forall spare: seq<byte>, spare': seq<byte> :: |spare| == c.oobSize && |spare'| == c.oobSize ==>
      SentBits(c, data, mode, ow, spare) == SentBits(c, data, mode, ow, spare')
  }

  function SentBits(c: Config, data: seq<byte>, mode: Mode, ow: OobWrite, spare: seq<byte>): Page
    requires |data| == c.ws && OobFits(c, mode, ow) && |spare| == c.oobSize
  {
    PageImage(c, data, StageOob(c, spare, mode, ow), mode).bits
  }

  /**
   That is so exactly when the client's bytes, and outside raw mode the code bytes, fill the whole OOB area: the
   buffer is not reset for such a write.
   */
  lemma FreshWriteExact(c: Config, e: Ecc, data: seq<byte>, mode: Mode, ow: OobWrite)
    requires (mode.Raw? || SwDevice(c, e)) && |data| == c.ws && ow.OobWrite? && OobFits(c, mode, ow)
    ensures FreshWrite(c, data, mode, ow) <==> forall q: nat :: q < c.oobSize ==> Supplied(c, e, mode, ow, q)
  {
    if q: nat :| q < c.oobSize && !Supplied(c, e, mode, ow, q) {
      StaleByteShows(c, e, data, mode, ow, q);
    } else {
      forall a: seq<byte>, b: seq<byte> | |a| == c.oobSize && |b| == c.oobSize
        ensures SentBits(c, data, mode, ow, a) == SentBits(c, data, mode, ow, b)
      {
        AllSupplied(c, e, data, mode, ow, a, b);
      }
    }
  }

  lemma AllSupplied(c: Config, e: Ecc, data: seq<byte>, mode: Mode, ow: OobWrite, a: seq<byte>, b: seq<byte>)
    requires (mode.Raw? || SwDevice(c, e)) && |data| == c.ws && |a| == |b| == c.oobSize && ow.OobWrite? && OobFits(c, mode, ow)
    requires forall q: nat :: q < c.oobSize ==> Supplied(c, e, mode, ow, q)
    ensures SentBits(c, data, mode, ow, a) == SentBits(c, data, mode, ow, b)
  {
    SentIs(c, e, data, mode, ow, a);
    SentIs(c, e, data, mode, ow, b);
    var x, y := OobSent(c, e, data, mode, ow, a), OobSent(c, e, data, mode, ow, b);
    forall q | 0 <= q < c.oobSize ensures x[q] == y[q] {
      SuppliedByte(c, e, data, mode, ow, a, b, q);
    }
    assert x == y;
  }

  lemma StaleByteShows(c: Config, e: Ecc, data: seq<byte>, mode: Mode, ow: OobWrite, q: nat)
    requires (mode.Raw? || SwDevice(c, e)) && |data| == c.ws && ow.OobWrite? && OobFits(c, mode, ow)
    requires q < c.oobSize && !Supplied(c, e, mode, ow, q)
    ensures !FreshWrite(c, data, mode, ow)
  {
    var blank := Blank(c.oobSize);
    var zero := blank[q := 0];
    SentIs(c, e, data, mode, ow, blank);
    SentIs(c, e, data, mode, ow, zero);
    StaleByte(c, e, data, mode, ow, blank, q);
    StaleByte(c, e, data, mode, ow, zero, q);
    BlankAt(c.oobSize, q);
    assert SentBits(c, data, mode, ow, blank)[c.ws + q] == 0xFF;
    assert SentBits(c, data, mode, ow, zero)[c.ws + q] == 0;
  }

  /**
   The second page of a write whose client bytes ran out on the first: it sends the first page's OOB bytes once more,
   its own code bytes apart.
   */
  lemma LaterPageRepeats(c: Config, e: Ecc, mode: Mode, ow: OobWrite, data: seq<byte>, data': seq<byte>, spare: seq<byte>,
                         first: Image, second: Image, q: nat)
    requires (mode.Raw? || SwDevice(c, e)) && |data| == |data'| == c.ws && |spare| == c.oobSize && ow.OobWrite? && OobFits(c, mode, ow)
    requires |ow.bytes| <= |Slots(c.free, c.oobSize, mode)| && OobFits(c, mode, OobRest(c, mode, ow))
    requires first == PageImage(c, data, StageOob(c, spare, mode, ow), mode)
    requires second == PageImage(c, data', StageOob(c, first.oob, mode, OobRest(c, mode, ow)), mode)
    requires q < c.oobSize && (mode.Raw? || q !in e.pos)
    ensures second.bits[c.ws + q] == first.bits[c.ws + q]
  {
    var rest := OobRest(c, mode, ow);
    assert rest.bytes == [];
    SentIs(c, e, data, mode, ow, spare);
    SentIs(c, e, data', mode, rest, first.oob);
    StaleByte(c, e, data', mode, rest, first.oob, q);
  }
}
