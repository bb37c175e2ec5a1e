/**
 The one-page read cache of `nand_do_read_ops`: what a page step of a read does to it, when the
 step keeps the cache coherent, and the branches that do not.
 */
module PageCache {
  import opened Bytes
  import opened Geometry
  import opened OobLayout
  import opened NandSpec

  /** pagebuf and databuf */
  datatype Cache = Cache(pagebuf: int, databuf: seq<byte>)

  ghost predicate ValidCache(c: Config, cells: seq<Page>, cache: Cache) {
    -1 <= cache.pagebuf < |cells| && |cache.databuf| == c.ws
  }

  /** A cached page is held as it decodes, and it decodes without an uncorrectable step. */
  ghost predicate Coherent(c: Config, cells: seq<Page>, cache: Cache)
    requires ValidCells(c, cells) && ValidCache(c, cells, cache)
  {
    cache.pagebuf >= 0 ==>
      var d := Decode(c, cells[cache.pagebuf]);
      !c.subpageRead && cache.databuf == d.data && d.failed == 0
  }

  datatype StepOut = StepOut(cache: Cache, data: seq<byte>, failed: nat, corrected: nat)

  predicate Hit(cache: Cache, p: nat, hasOob: bool) {
    p == cache.pagebuf && !hasOob
  }

  /**
   One turn of the read loop: bytes from column col of page p, after `earlier` failed ECC steps
   in the same call.
   */
  function ReadStep(c: Config, cells: seq<Page>, cache: Cache, p: nat, col: nat, bytes: nat, mode: Mode,
                    hasOob: bool, earlier: nat): (r: StepOut)
    requires ValidCells(c, cells) && ValidCache(c, cells, cache)
    requires p < |cells| && col + bytes <= c.ws
    ensures ValidCache(c, cells, r.cache) && |r.data| == bytes
  {
    if Hit(cache, p, hasOob) then
      StepOut(cache, cache.databuf[col..col + bytes], 0, 0)
    else
      var r := PageRead(c, cells[p], col, bytes, mode, hasOob);
      if bytes == c.ws then
        StepOut(cache, r.data, r.failed, r.corrected)
      else if c.subpageRead && !mode.Raw? && !hasOob then
        StepOut(cache.(databuf := cache.databuf[..col] + r.data + cache.databuf[col + bytes..]),
                r.data, r.failed, r.corrected)
      else
        StepOut(Cache(if !c.subpageRead && !hasOob && earlier + r.failed == 0 then p else cache.pagebuf,
                      WholeRead(c, cells[p], mode).data),
                r.data, r.failed, r.corrected)
  }

  /**
   When a partial page that misses the cache keeps it coherent, exactly: if the turn claims the page,
   the claim has to be true; if it does not, the page that was claimed before has to be the one now in
   the buffer, or none.
   */
  lemma PartialStepExact(c: Config, cells: seq<Page>, cache: Cache, p: nat, col: nat, bytes: nat, mode: Mode,
                         hasOob: bool, earlier: nat)
    requires ValidCells(c, cells) && ValidCache(c, cells, cache)
    requires p < |cells| && bytes < c.ws && col + bytes <= c.ws && Coherent(c, cells, cache) && !Hit(cache, p, hasOob) && !c.subpageRead
    ensures var s := ReadStep(c, cells, cache, p, col, bytes, mode, hasOob, earlier);
            var d := Decode(c, cells[p]);
            var claims := !hasOob && earlier == 0 && (mode.Raw? || d.failed == 0);
            Coherent(c, cells, s.cache) <==>
              if claims then (mode.Raw? ==> cells[p][..c.ws] == d.data && d.failed == 0)
              else cache.pagebuf == -1 || WholeRead(c, cells[p], mode).data == cache.databuf
  {
  }

  /** The last page a stretch of len bytes from column col of page p touches. */
  function LastPage(ws: nat, p: nat, col: nat, len: nat): (r: nat)
    requires col < ws
    ensures p <= r
    decreases len
  {
    if len <= ws - col then p else LastPage(ws, p + 1, 0, len - (ws - col))
  }

  // ---------------------------------------------------------------- a whole read through the cache

  /** What a turn adds to a read */
  function Extend(acc: ReadOut, s: StepOut, piece: seq<byte>): ReadOut {
    ReadOut(acc.data + s.data, acc.oob + piece, acc.failed + s.failed, acc.corrected + s.corrected)
  }

  datatype Loaded = Loaded(cache: Cache, out: ReadOut)

  /** A partial read of no bytes from column 0 through read_subpage, where `data_offs + readlen - 1` underflows */
  predicate Overruns(c: Config, cached: int, p: nat, col: nat, len: nat, mode: Mode, oq: OobRead) {
    len == 0 && col == 0 && c.subpageRead && !mode.Raw? && oq.NoOobRead? && p != cached
  }

  /** The return code of a read: an uncorrectable step outweighs corrected bits. */
  function ReadRet(failed: nat, corrected: nat): Ret {
    if failed > 0 then EBadMsg else if corrected > 0 then EUClean else Ok
  }

  const NOTHING := ReadOut([], [], 0, 0)

  /** The OOB bytes of one turn */
  function TurnPiece(c: Config, page: Page, col: nat, bytes: nat, mode: Mode, oq: OobRead): seq<byte>
    requires |page| == c.ws + c.oobSize && col + bytes <= c.ws && ReadFits(c, mode, oq)
  {
    OobPiece(c, PageRead(c, page, col, bytes, mode, oq.OobRead?).oob, mode, oq)
  }

  /** The read loop over the cache it finds: len bytes from column col of page p are still to come, acc has been read. */
  function CachedRead(c: Config, cells: seq<Page>, cache: Cache, p: nat, col: nat, len: nat, mode: Mode, oq: OobRead,
                      acc: ReadOut): (r: Loaded)
    requires ValidCells(c, cells) && ValidCache(c, cells, cache) && ReadFits(c, mode, oq)
    requires col < c.ws && p < |cells| && len <= Room(c.ws, |cells|, p, col)
    ensures ValidCache(c, cells, r.cache) && |r.out.data| == |acc.data| + len
    decreases len
  {
    var bytes := Min(c.ws - col, len);
    var s := ReadStep(c, cells, cache, p, col, bytes, mode, oq.OobRead?, acc.failed);
    var acc' := Extend(acc, s, TurnPiece(c, cells[p], col, bytes, mode, oq));
    if bytes == len then Loaded(s.cache, acc')
    else
      assert Room(c.ws, |cells|, p + 1, 0) > 0;
      CachedRead(c, cells, s.cache, p + 1, 0, len - bytes, mode, ReadRest(c, mode, oq), acc')
  }

  /** nand_do_read_ops, exactly: the cache, the return code, the bytes delivered and what the ECC statistics gain */
  ghost predicate ReadDone(c: Config, cells: seq<Page>, cache: Cache, from: nat, len: nat, mode: Mode, oq: OobRead,
                           cache': Cache, ret: Ret, data: seq<byte>, oob: seq<byte>, failed: int, corrected: int)
    requires ValidCells(c, cells) && ValidCache(c, cells, cache) && ReadFits(c, mode, oq)
    requires InDevice(c, |cells|, from, len)
  {
    if from == |cells| * c.ws then cache' == cache && ret == Bug && data == [] && oob == [] && failed == 0 == corrected
    else
      RequestFits(c, |cells|, from, len);
      if Overruns(c, cache.pagebuf, PageOf(c, from), ColOf(c, from), len, mode, oq) then
        cache' == cache && ret == Overrun && data == [] && oob == [] && failed == 0 == corrected
      else
        var r := CachedRead(c, cells, cache, PageOf(c, from), ColOf(c, from), len, mode, oq, NOTHING);
        && cache' == r.cache && r.out.data == data && r.out.oob == oob && r.out.failed == failed
        && r.out.corrected == corrected && ret == ReadRet(r.out.failed, r.out.corrected)
  }

  lemma CachedLast(c: Config, cells: seq<Page>, cache: Cache, p: nat, col: nat, len: nat, mode: Mode, oq: OobRead,
                   acc: ReadOut, s: StepOut, acc': ReadOut)
    requires ValidCells(c, cells) && ValidCache(c, cells, cache) && ReadFits(c, mode, oq)
    requires col < c.ws && p < |cells| && len <= Room(c.ws, |cells|, p, col) && len <= c.ws - col
    requires s == ReadStep(c, cells, cache, p, col, len, mode, oq.OobRead?, acc.failed)
    requires acc' == Extend(acc, s, TurnPiece(c, cells[p], col, len, mode, oq))
    ensures CachedRead(c, cells, cache, p, col, len, mode, oq, acc) == Loaded(s.cache, acc')
  {
  }

  lemma RestFits(c: Config, n: nat, p: nat, col: nat, len: nat, bytes: nat, mode: Mode, oq: OobRead, oq': OobRead, p': nat,
                 len': nat)
    requires ReadFits(c, mode, oq) && col < c.ws && len <= Room(c.ws, n, p, col) && bytes == c.ws - col < len
    requires oq' == ReadRest(c, mode, oq) && p' == p + 1 && len' == len - bytes
    ensures ReadFits(c, mode, oq') && p' < n && 0 < len' <= Room(c.ws, n, p', 0)
  {
  }

  lemma CachedMore(c: Config, cells: seq<Page>, cache: Cache, p: nat, col: nat, len: nat, bytes: nat, mode: Mode,
                   oq: OobRead, acc: ReadOut, s: StepOut, acc': ReadOut, oq': OobRead, p': nat, len': nat)
    requires ValidCells(c, cells) && ValidCache(c, cells, cache) && ReadFits(c, mode, oq)
    requires col < c.ws && len <= Room(c.ws, |cells|, p, col) && bytes == c.ws - col < len
    requires s == ReadStep(c, cells, cache, p, col, bytes, mode, oq.OobRead?, acc.failed)
    requires acc' == Extend(acc, s, TurnPiece(c, cells[p], col, bytes, mode, oq))
    requires oq' == ReadRest(c, mode, oq) && p' == p + 1 && len' == len - bytes
    ensures ReadFits(c, mode, oq') && p' < |cells| && 0 < len' <= Room(c.ws, |cells|, p', 0)
    ensures CachedRead(c, cells, cache, p, col, len, mode, oq, acc) ==
            CachedRead(c, cells, s.cache, p', 0, len', mode, oq', acc')
  {
    RestFits(c, |cells|, p, col, len, bytes, mode, oq, oq', p', len');
    assert Min(c.ws - col, len) == bytes;
  }

  /** The whole call is what reading the rest from here gives. */
  ghost predicate ReadRemains(c: Config, cells: seq<Page>, cache: Cache, p: nat, col: nat, len: nat, mode: Mode, oq: OobRead,
                              acc: ReadOut, whole: Loaded)
  {
    && ValidCells(c, cells) && ValidCache(c, cells, cache) && ReadFits(c, mode, oq)
    && col < c.ws && p < |cells| && len <= Room(c.ws, |cells|, p, col)
    && whole == CachedRead(c, cells, cache, p, col, len, mode, oq, acc)
  }

  /** A turn in terms of what remains */
  lemma ReadTurned(c: Config, cells: seq<Page>, cache: Cache, p: nat, col: nat, len: nat, bytes: nat, mode: Mode,
                   oq: OobRead, acc: ReadOut, s: StepOut, acc': ReadOut, oq': OobRead, p': nat, len': nat, whole: Loaded)
    requires ReadRemains(c, cells, cache, p, col, len, mode, oq, acc, whole) && bytes == Min(c.ws - col, len)
    requires s == ReadStep(c, cells, cache, p, col, bytes, mode, oq.OobRead?, acc.failed)
    requires acc' == Extend(acc, s, TurnPiece(c, cells[p], col, bytes, mode, oq))
    requires oq' == ReadRest(c, mode, oq) && p' == p + 1 && len' == len - bytes
    ensures len' == 0 ==> whole == Loaded(s.cache, acc')
    ensures len' > 0 ==> ReadRemains(c, cells, s.cache, p', 0, len', mode, oq', acc', whole)
  {
    CachedTurn(c, cells, cache, p, col, len, bytes, mode, oq, acc, s, acc', oq', p', len');
  }

  /** One turn of the loop, last or not */
  lemma CachedTurn(c: Config, cells: seq<Page>, cache: Cache, p: nat, col: nat, len: nat, bytes: nat, mode: Mode,
                   oq: OobRead, acc: ReadOut, s: StepOut, acc': ReadOut, oq': OobRead, p': nat, len': nat)
    requires ValidCells(c, cells) && ValidCache(c, cells, cache) && ReadFits(c, mode, oq)
    requires col < c.ws && p < |cells| && len <= Room(c.ws, |cells|, p, col) && bytes == Min(c.ws - col, len)
    requires s == ReadStep(c, cells, cache, p, col, bytes, mode, oq.OobRead?, acc.failed)
    requires acc' == Extend(acc, s, TurnPiece(c, cells[p], col, bytes, mode, oq))
    requires oq' == ReadRest(c, mode, oq) && p' == p + 1 && len' == len - bytes
    ensures ReadFits(c, mode, oq') && (len' > 0 ==> p' < |cells| && len' <= Room(c.ws, |cells|, p', 0))
    ensures CachedRead(c, cells, cache, p, col, len, mode, oq, acc) ==
            if len' == 0 then Loaded(s.cache, acc') else CachedRead(c, cells, s.cache, p', 0, len', mode, oq', acc')
  {
    if len' == 0 {
      CachedLast(c, cells, cache, p, col, len, mode, oq, acc, s, acc');
    } else {
      CachedMore(c, cells, cache, p, col, len, bytes, mode, oq, acc, s, acc', oq', p', len');
    }
  }

  /** pagebuf after a turn that finds `cached` there, `earlier` failures into the call */
  function TurnBuf(c: Config, cached: int, p: nat, bytes: nat, hasOob: bool, earlier: nat, failed: nat): int {
    if (hasOob || p != cached) && bytes != c.ws && !c.subpageRead && !hasOob && earlier + failed == 0 then p else cached
  }

  /** The failures a turn counts: none if the page comes from the cache */
  function TurnFailed(c: Config, page: Page, cached: int, p: nat, col: nat, bytes: nat, mode: Mode, hasOob: bool): nat
    requires |page| == c.ws + c.oobSize && col + bytes <= c.ws
  {
    if p == cached && !hasOob then 0 else PageRead(c, page, col, bytes, mode, hasOob).failed
  }

  /** pagebuf after a read, in terms of the flash and of the pagebuf it found alone */
  function BufAfterRead(c: Config, cells: seq<Page>, cached: int, p: nat, col: nat, len: nat, mode: Mode, hasOob: bool,
                        earlier: nat): (r: int)
    requires ValidCells(c, cells) && -1 <= cached < |cells|
    requires col < c.ws && p < |cells| && len <= Room(c.ws, |cells|, p, col)
    ensures -1 <= r < |cells|
    decreases len
  {
    var bytes := Min(c.ws - col, len);
    var failed := TurnFailed(c, cells[p], cached, p, col, bytes, mode, hasOob);
    var b := TurnBuf(c, cached, p, bytes, hasOob, earlier, failed);
    if bytes == len then b
    else
      assert Room(c.ws, |cells|, p + 1, 0) > 0;
      BufAfterRead(c, cells, b, p + 1, 0, len - bytes, mode, hasOob, earlier + failed)
  }

  lemma StepBuf(c: Config, cells: seq<Page>, cache: Cache, p: nat, col: nat, bytes: nat, mode: Mode, hasOob: bool,
                earlier: nat)
    requires ValidCells(c, cells) && ValidCache(c, cells, cache) && p < |cells| && col + bytes <= c.ws
    ensures var s := ReadStep(c, cells, cache, p, col, bytes, mode, hasOob, earlier);
            s.failed == TurnFailed(c, cells[p], cache.pagebuf, p, col, bytes, mode, hasOob)
            && s.cache.pagebuf == TurnBuf(c, cache.pagebuf, p, bytes, hasOob, earlier, s.failed)
  {
  }

  lemma {:induction false} CachedReadBuf(c: Config, cells: seq<Page>, cache: Cache, p: nat, col: nat, len: nat, mode: Mode,
                                         oq: OobRead, acc: ReadOut)
    requires ValidCells(c, cells) && ValidCache(c, cells, cache) && ReadFits(c, mode, oq)
    requires col < c.ws && p < |cells| && len <= Room(c.ws, |cells|, p, col)
    ensures CachedRead(c, cells, cache, p, col, len, mode, oq, acc).cache.pagebuf ==
            BufAfterRead(c, cells, cache.pagebuf, p, col, len, mode, oq.OobRead?, acc.failed)
    decreases len
  {
    if len <= c.ws - col {
      LastReadBuf(c, cells, cache, p, col, len, mode, oq, acc);
    } else {
      var bytes, oq', p', len' := c.ws - col, ReadRest(c, mode, oq), p + 1, len - (c.ws - col);
      var s := ReadStep(c, cells, cache, p, col, bytes, mode, oq.OobRead?, acc.failed);
      var acc' := Extend(acc, s, TurnPiece(c, cells[p], col, bytes, mode, oq));
      CachedMore(c, cells, cache, p, col, len, bytes, mode, oq, acc, s, acc', oq', p', len');
      CachedReadBuf(c, cells, s.cache, p', 0, len', mode, oq', acc');
      MoreReadBuf(c, cells, cache, p, col, len, bytes, mode, oq.OobRead?, acc.failed, s, acc'.failed, p', len');
    }
  }

  lemma LastReadBuf(c: Config, cells: seq<Page>, cache: Cache, p: nat, col: nat, len: nat, mode: Mode, oq: OobRead,
                    acc: ReadOut)
    requires ValidCells(c, cells) && ValidCache(c, cells, cache) && ReadFits(c, mode, oq)
    requires col < c.ws && p < |cells| && len <= Room(c.ws, |cells|, p, col) && len <= c.ws - col
    ensures CachedRead(c, cells, cache, p, col, len, mode, oq, acc).cache.pagebuf ==
            BufAfterRead(c, cells, cache.pagebuf, p, col, len, mode, oq.OobRead?, acc.failed)
  {
    var s := ReadStep(c, cells, cache, p, col, len, mode, oq.OobRead?, acc.failed);
    StepBuf(c, cells, cache, p, col, len, mode, oq.OobRead?, acc.failed);
    CachedLast(c, cells, cache, p, col, len, mode, oq, acc, s, Extend(acc, s, TurnPiece(c, cells[p], col, len, mode, oq)));
  }

  lemma MoreReadBuf(c: Config, cells: seq<Page>, cache: Cache, p: nat, col: nat, len: nat, bytes: nat, mode: Mode,
                    hasOob: bool, earlier: nat, s: StepOut, earlier': nat, p': nat, len': nat)
    requires ValidCells(c, cells) && ValidCache(c, cells, cache)
    requires col < c.ws && p' < |cells| && len <= Room(c.ws, |cells|, p, col) && bytes == c.ws - col < len
    requires p' == p + 1 && len' == len - bytes && len' <= Room(c.ws, |cells|, p', 0)
    requires s == ReadStep(c, cells, cache, p, col, bytes, mode, hasOob, earlier) && earlier' == earlier + s.failed
    ensures BufAfterRead(c, cells, cache.pagebuf, p, col, len, mode, hasOob, earlier) ==
            BufAfterRead(c, cells, s.cache.pagebuf, p', 0, len', mode, hasOob, earlier')
  {
    StepBuf(c, cells, cache, p, col, bytes, mode, hasOob, earlier);
  }

  // ---------------------------------------------------------------- what keeps the cache coherent

  /**
   The condition on one turn under which the cache stays coherent: a partial page that goes through the
   page buffer is not raw, carries no OOB buffer, and no ECC failure has occurred in the call, itself
   included. Whole pages do not touch the cache.
   */
  predicate KeepStep(c: Config, page: Page, col: nat, bytes: nat, mode: Mode, hasOob: bool, earlier: nat)
    requires |page| == c.ws + c.oobSize && col + bytes <= c.ws
  {
    bytes != c.ws && !c.subpageRead ==>
      !mode.Raw? && !hasOob && earlier + PageRead(c, page, col, bytes, mode, hasOob).failed == 0
  }

  /** Every turn of a read of len bytes from column col of page p keeps it coherent. */
  ghost predicate KeepRead(c: Config, cells: seq<Page>, p: nat, col: nat, len: nat, mode: Mode, hasOob: bool, earlier: nat)
    requires ValidCells(c, cells)
    requires col < c.ws && p < |cells| && len <= Room(c.ws, |cells|, p, col)
    decreases len
  {
    var bytes := Min(c.ws - col, len);
    KeepStep(c, cells[p], col, bytes, mode, hasOob, earlier)
    && if bytes == len then true
       else
         assert Room(c.ws, |cells|, p + 1, 0) > 0;
         KeepRead(c, cells, p + 1, 0, len - bytes, mode, hasOob,
                  earlier + PageRead(c, cells[p], col, bytes, mode, hasOob).failed)
  }

  /** An ordinary read whose pages all decode keeps it: no OOB buffer, not raw, no uncorrectable step. */
  lemma {:induction false} PlainReadKeeps(c: Config, cells: seq<Page>, p: nat, col: nat, len: nat, mode: Mode)
    requires ValidCells(c, cells) && !mode.Raw?
    requires col < c.ws && p < |cells| && len <= Room(c.ws, |cells|, p, col)
    requires ReadPages(c, cells, p, col, len, mode, NoOobRead).failed == 0
    ensures KeepRead(c, cells, p, col, len, mode, false, 0)
    decreases len
  {
    if c.ws - col < len {
      PlainReadKeeps(c, cells, p + 1, 0, len - (c.ws - col), mode);
    }
  }

  /** So does a read of whole pages, in every mode and with or without an OOB buffer. */
  lemma {:induction false} WholePagesKeep(c: Config, cells: seq<Page>, p: nat, n: nat, mode: Mode, hasOob: bool, earlier: nat)
    requires ValidCells(c, cells) && n > 0 && Times(n, c.ws) <= Room(c.ws, |cells|, p, 0)
    ensures KeepRead(c, cells, p, 0, Times(n, c.ws), mode, hasOob, earlier)
    decreases n
  {
    if n > 1 {
      WholePagesKeep(c, cells, p + 1, n - 1, mode, hasOob, earlier + PageRead(c, cells[p], 0, c.ws, mode, hasOob).failed);
    }
  }

  lemma StepCoherent(c: Config, cells: seq<Page>, cache: Cache, p: nat, col: nat, bytes: nat, mode: Mode,
                     hasOob: bool, earlier: nat)
    requires ValidCells(c, cells) && ValidCache(c, cells, cache)
    requires p < |cells| && col + bytes <= c.ws
    requires Coherent(c, cells, cache) && KeepStep(c, cells[p], col, bytes, mode, hasOob, earlier)
    ensures var s := ReadStep(c, cells, cache, p, col, bytes, mode, hasOob, earlier);
            Coherent(c, cells, s.cache) && s.failed == PageRead(c, cells[p], col, bytes, mode, hasOob).failed
  {
  }

  /**
   A turn delivers the bytes an uncached read delivers, exactly when it is not a raw read served from the
   cache, or the page holds in the clear what it decodes to.
   */
  lemma StepDataExact(c: Config, cells: seq<Page>, cache: Cache, p: nat, col: nat, bytes: nat, mode: Mode,
                      hasOob: bool, earlier: nat)
    requires ValidCells(c, cells) && ValidCache(c, cells, cache) && Coherent(c, cells, cache)
    requires p < |cells| && col + bytes <= c.ws
    ensures ReadStep(c, cells, cache, p, col, bytes, mode, hasOob, earlier).data ==
              PageRead(c, cells[p], col, bytes, mode, hasOob).data
            <==> !(Hit(cache, p, hasOob) && mode.Raw?)
                 || Decode(c, cells[p]).data[col..col + bytes] == cells[p][..c.ws][col..col + bytes]
  {
  }

  /** A turn counts the corrected bits an uncached read counts, unless the page is cached: then it counts none. */
  lemma StepCorrectedExact(c: Config, cells: seq<Page>, cache: Cache, p: nat, col: nat, bytes: nat, mode: Mode,
                           hasOob: bool, earlier: nat)
    requires ValidCells(c, cells) && ValidCache(c, cells, cache) && Coherent(c, cells, cache)
    requires p < |cells| && col + bytes <= c.ws
    ensures ReadStep(c, cells, cache, p, col, bytes, mode, hasOob, earlier).corrected
            + (if Hit(cache, p, hasOob) && !mode.Raw? then Decode(c, cells[p]).corrected else 0) ==
            PageRead(c, cells[p], col, bytes, mode, hasOob).corrected
  {
  }

  // ---------------------------------------------------------------- the cached read against the uncached one

  /**
   A read of pages p to last that starts at column col is served page `cached` from the cache: it is the
   first page, or a later one that no partial first page has pushed out.
   */
  predicate Hits(cached: int, p: nat, col: nat, last: nat, hasOob: bool) {
    !hasOob && (cached == p || (col == 0 && p < cached <= last))
  }

  /** The corrected bits a read does not report because the page comes from the cache */
  ghost function Hidden(c: Config, cells: seq<Page>, cached: int, p: nat, col: nat, last: nat, mode: Mode, hasOob: bool): nat
    requires ValidCells(c, cells) && cached < |cells|
  {
    if Hits(cached, p, col, last, hasOob) && !mode.Raw? then Decode(c, cells[cached]).corrected else 0
  }

  /** A raw read is not served corrected bytes from the cache. */
  ghost predicate Truthful(c: Config, cells: seq<Page>, cached: int, p: nat, col: nat, last: nat, mode: Mode, hasOob: bool)
    requires ValidCells(c, cells) && cached < |cells|
  {
    Hits(cached, p, col, last, hasOob) && mode.Raw? ==> Decode(c, cells[cached]).data == cells[cached][..c.ws]
  }

  /** What a read through the cache gives, in terms of an uncached read u of the same bytes */
  ghost predicate ReadExact(c: Config, cells: seq<Page>, cached: int, p: nat, col: nat, last: nat, mode: Mode,
                            hasOob: bool, acc: ReadOut, r: Loaded, u: ReadOut)
    requires ValidCells(c, cells) && ValidCache(c, cells, r.cache) && cached < |cells|
  {
    && Coherent(c, cells, r.cache)
    && r.out.oob == acc.oob + u.oob && r.out.failed == acc.failed + u.failed
    && r.out.corrected + Hidden(c, cells, cached, p, col, last, mode, hasOob) == acc.corrected + u.corrected
    && (r.out.data == acc.data + u.data <==> Truthful(c, cells, cached, p, col, last, mode, hasOob))
  }

  lemma SameHead(acc: seq<byte>, x: seq<byte>, y: seq<byte>)
    ensures acc + x == acc + y <==> x == y
  {
    assert (acc + x)[|acc|..] == x && (acc + y)[|acc|..] == y;
  }

  lemma SameMiddle(acc: seq<byte>, x: seq<byte>, y: seq<byte>, z: seq<byte>)
    requires |x| == |y|
    ensures acc + x + z == acc + (y + z) <==> x == y
  {
    var l, r := acc + x + z, acc + (y + z);
    assert l[|acc|..|acc| + |x|] == x && r[|acc|..|acc| + |y|] == y;
  }

  lemma LastTurnExact(c: Config, cells: seq<Page>, cache: Cache, p: nat, col: nat, len: nat, mode: Mode, oq: OobRead,
                      acc: ReadOut)
    requires ValidCells(c, cells) && ValidCache(c, cells, cache) && Coherent(c, cells, cache) && ReadFits(c, mode, oq)
    requires col < c.ws && p < |cells| && len <= Room(c.ws, |cells|, p, col) && len <= c.ws - col
    requires KeepStep(c, cells[p], col, len, mode, oq.OobRead?, acc.failed)
    ensures ReadExact(c, cells, cache.pagebuf, p, col, p, mode, oq.OobRead?, acc,
                      CachedRead(c, cells, cache, p, col, len, mode, oq, acc),
                      ReadPages(c, cells, p, col, len, mode, oq))
  {
    var hasOob := oq.OobRead?;
    var s := ReadStep(c, cells, cache, p, col, len, mode, hasOob, acc.failed);
    StepCoherent(c, cells, cache, p, col, len, mode, hasOob, acc.failed);
    StepDataExact(c, cells, cache, p, col, len, mode, hasOob, acc.failed);
    StepCorrectedExact(c, cells, cache, p, col, len, mode, hasOob, acc.failed);
    CachedLast(c, cells, cache, p, col, len, mode, oq, acc, s, Extend(acc, s, TurnPiece(c, cells[p], col, len, mode, oq)));
    ReadLast(c, cells, p, col, len, mode, oq);
    SameHead(acc.data, s.data, PageRead(c, cells[p], col, len, mode, hasOob).data);
    WholeTurn(c, cells[p], col, len, mode, hasOob, acc.failed);
  }

  /** A raw turn that keeps the cache takes the whole page. */
  lemma WholeTurn(c: Config, page: Page, col: nat, bytes: nat, mode: Mode, hasOob: bool, earlier: nat)
    requires |page| == c.ws + c.oobSize && col + bytes <= c.ws && KeepStep(c, page, col, bytes, mode, hasOob, earlier)
    ensures mode.Raw? && !c.subpageRead ==>
              Decode(c, page).data[col..col + bytes] == Decode(c, page).data
              && page[..c.ws][col..col + bytes] == page[..c.ws]
  {
  }

  /** The state of the cache after a turn that is not the last, and which later pages then hit it. */
  lemma HitsMore(c: Config, cells: seq<Page>, cache: Cache, p: nat, col: nat, bytes: nat, mode: Mode, hasOob: bool,
                 earlier: nat, last: nat)
    requires ValidCells(c, cells) && ValidCache(c, cells, cache) && Coherent(c, cells, cache)
    requires p < last && p < |cells| && col < c.ws && bytes == c.ws - col
    requires KeepStep(c, cells[p], col, bytes, mode, hasOob, earlier)
    ensures var b := ReadStep(c, cells, cache, p, col, bytes, mode, hasOob, earlier).cache.pagebuf;
            && (Hit(cache, p, hasOob) ==> Hits(cache.pagebuf, p, col, last, hasOob) && !Hits(b, p + 1, 0, last, hasOob))
            && (!Hit(cache, p, hasOob) ==>
                  (Hits(cache.pagebuf, p, col, last, hasOob) <==> Hits(b, p + 1, 0, last, hasOob))
                  && (Hits(cache.pagebuf, p, col, last, hasOob) ==> b == cache.pagebuf))
  {
  }

  /** u is one page, and then u'. */
  ghost predicate Follows(u: ReadOut, pr: PageOut, piece: seq<byte>, u': ReadOut) {
    && u.data == pr.data + u'.data && u.oob == piece + u'.oob
    && u.failed == pr.failed + u'.failed && u.corrected == pr.corrected + u'.corrected
  }

  /** A turn s through the cache against the page pr as it is, with what is hidden and what is true before and after it */
  ghost predicate TurnMatches(c: Config, cells: seq<Page>, cached: int, cached': int, p: nat, col: nat, last: nat,
                              mode: Mode, hasOob: bool, s: StepOut, pr: PageOut)
    requires ValidCells(c, cells) && cached < |cells| && cached' < |cells|
  {
    && |s.data| == |pr.data| && s.failed == pr.failed
    && s.corrected + Hidden(c, cells, cached, p, col, last, mode, hasOob) ==
       pr.corrected + Hidden(c, cells, cached', p + 1, 0, last, mode, hasOob)
    && (Truthful(c, cells, cached, p, col, last, mode, hasOob) <==>
          s.data == pr.data && Truthful(c, cells, cached', p + 1, 0, last, mode, hasOob))
    && (s.data == pr.data || Truthful(c, cells, cached', p + 1, 0, last, mode, hasOob))
  }

  /** From the rest of a read to the whole of it */
  lemma MoreExact(c: Config, cells: seq<Page>, cached: int, cached': int, p: nat, col: nat, last: nat, mode: Mode,
                  hasOob: bool, acc: ReadOut, s: StepOut, piece: seq<byte>, acc': ReadOut, r: Loaded, pr: PageOut,
                  u: ReadOut, u': ReadOut)
    requires ValidCells(c, cells) && ValidCache(c, cells, r.cache) && -1 <= cached < |cells| && -1 <= cached' < |cells|
    requires acc' == Extend(acc, s, piece) && Follows(u, pr, piece, u')
    requires ReadExact(c, cells, cached', p + 1, 0, last, mode, hasOob, acc', r, u')
    requires TurnMatches(c, cells, cached, cached', p, col, last, mode, hasOob, s, pr)
    ensures ReadExact(c, cells, cached, p, col, last, mode, hasOob, acc, r, u)
  {
    SameMiddle(acc.data, s.data, pr.data, u'.data);
    JoinBytes(acc.data, s.data, u'.data);
    JoinBytes(acc.oob, piece, u'.oob);
  }

  /** One turn of a longer read, counted and compared */
  lemma TurnExact(c: Config, cells: seq<Page>, cache: Cache, p: nat, col: nat, bytes: nat, mode: Mode, hasOob: bool,
                  earlier: nat, last: nat, s: StepOut, pr: PageOut)
    requires ValidCells(c, cells) && ValidCache(c, cells, cache) && Coherent(c, cells, cache)
    requires p < last && p < |cells| && col < c.ws && bytes == c.ws - col
    requires KeepStep(c, cells[p], col, bytes, mode, hasOob, earlier)
    requires s == ReadStep(c, cells, cache, p, col, bytes, mode, hasOob, earlier)
    requires pr == PageRead(c, cells[p], col, bytes, mode, hasOob)
    ensures TurnMatches(c, cells, cache.pagebuf, s.cache.pagebuf, p, col, last, mode, hasOob, s, pr)
  {
    StepCoherent(c, cells, cache, p, col, bytes, mode, hasOob, earlier);
    StepDataExact(c, cells, cache, p, col, bytes, mode, hasOob, earlier);
    StepCorrectedExact(c, cells, cache, p, col, bytes, mode, hasOob, earlier);
    WholeTurn(c, cells[p], col, bytes, mode, hasOob, earlier);
    HitsMore(c, cells, cache, p, col, bytes, mode, hasOob, earlier, last);
  }

  /**
   A read through a coherent cache whose turns keep it, against an uncached read: the cache stays
   coherent, OOB bytes and failures are the same, the corrected bits are those of the pages that do not
   come from the cache, and the data is the same exactly when no raw read is served corrected bytes.
   */
  lemma {:induction false} CachedReadExact(c: Config, cells: seq<Page>, cache: Cache, p: nat, col: nat, len: nat, mode: Mode,
                                           oq: OobRead, acc: ReadOut)
    requires ValidCells(c, cells) && ValidCache(c, cells, cache) && Coherent(c, cells, cache) && ReadFits(c, mode, oq)
    requires col < c.ws && p < |cells| && len <= Room(c.ws, |cells|, p, col)
    requires KeepRead(c, cells, p, col, len, mode, oq.OobRead?, acc.failed)
    ensures ReadExact(c, cells, cache.pagebuf, p, col, LastPage(c.ws, p, col, len), mode, oq.OobRead?, acc,
                      CachedRead(c, cells, cache, p, col, len, mode, oq, acc),
                      ReadPages(c, cells, p, col, len, mode, oq))
    decreases len
  {
    if len <= c.ws - col {
      LastTurnExact(c, cells, cache, p, col, len, mode, oq, acc);
    } else {
      var bytes, oq', p', len' := c.ws - col, ReadRest(c, mode, oq), p + 1, len - (c.ws - col);
      var s := ReadStep(c, cells, cache, p, col, bytes, mode, oq.OobRead?, acc.failed);
      var acc' := Extend(acc, s, TurnPiece(c, cells[p], col, bytes, mode, oq));
      KeepTurn(c, cells, cache, p, col, len, bytes, mode, oq, acc, s, acc', oq', p', len');
      CachedReadExact(c, cells, s.cache, p', 0, len', mode, oq', acc');
      WholeFromRest(c, cells, cache, p, col, len, bytes, mode, oq, acc, s, acc', oq', p', len');
    }
  }

  lemma WholeFromRest(c: Config, cells: seq<Page>, cache: Cache, p: nat, col: nat, len: nat, bytes: nat, mode: Mode,
                      oq: OobRead, acc: ReadOut, s: StepOut, acc': ReadOut, oq': OobRead, p': nat, len': nat)
    requires ValidCells(c, cells) && ValidCache(c, cells, cache) && Coherent(c, cells, cache) && ReadFits(c, mode, oq)
    requires p < |cells| && col < c.ws && len <= Room(c.ws, |cells|, p, col) && bytes == c.ws - col < len
    requires KeepStep(c, cells[p], col, bytes, mode, oq.OobRead?, acc.failed)
    requires s == ReadStep(c, cells, cache, p, col, bytes, mode, oq.OobRead?, acc.failed)
    requires acc' == Extend(acc, s, TurnPiece(c, cells[p], col, bytes, mode, oq))
    requires oq' == ReadRest(c, mode, oq) && oq'.OobRead? == oq.OobRead? && p' == p + 1 && len' == len - bytes
    requires ReadFits(c, mode, oq') && p' < |cells| && 0 < len' <= Room(c.ws, |cells|, p', 0)
    requires ReadExact(c, cells, s.cache.pagebuf, p', 0, LastPage(c.ws, p', 0, len'), mode, oq'.OobRead?, acc',
                       CachedRead(c, cells, s.cache, p', 0, len', mode, oq', acc'),
                       ReadPages(c, cells, p', 0, len', mode, oq'))
    ensures ReadExact(c, cells, cache.pagebuf, p, col, LastPage(c.ws, p, col, len), mode, oq.OobRead?, acc,
                      CachedRead(c, cells, cache, p, col, len, mode, oq, acc),
                      ReadPages(c, cells, p, col, len, mode, oq))
  {
    BothUnfold(c, cells, cache, p, col, len, bytes, mode, oq, acc, s, acc', oq', p', len');
    LongReadExact(c, cells, cache, p, col, bytes, mode, oq.OobRead?, acc, s,
                  PageRead(c, cells[p], col, bytes, mode, oq.OobRead?), TurnPiece(c, cells[p], col, bytes, mode, oq), acc',
                  LastPage(c.ws, p', 0, len'), CachedRead(c, cells, s.cache, p', 0, len', mode, oq', acc'),
                  ReadPages(c, cells, p, col, len, mode, oq), ReadPages(c, cells, p', 0, len', mode, oq'));
  }

  /** What a turn that is not the last leaves to the next */
  lemma KeepTurn(c: Config, cells: seq<Page>, cache: Cache, p: nat, col: nat, len: nat, bytes: nat, mode: Mode,
                 oq: OobRead, acc: ReadOut, s: StepOut, acc': ReadOut, oq': OobRead, p': nat, len': nat)
    requires ValidCells(c, cells) && ValidCache(c, cells, cache) && Coherent(c, cells, cache) && ReadFits(c, mode, oq)
    requires col < c.ws && len <= Room(c.ws, |cells|, p, col) && bytes == c.ws - col < len
    requires KeepRead(c, cells, p, col, len, mode, oq.OobRead?, acc.failed)
    requires s == ReadStep(c, cells, cache, p, col, bytes, mode, oq.OobRead?, acc.failed)
    requires acc' == Extend(acc, s, TurnPiece(c, cells[p], col, bytes, mode, oq))
    requires oq' == ReadRest(c, mode, oq) && p' == p + 1 && len' == len - bytes
    ensures ReadFits(c, mode, oq') && oq'.OobRead? == oq.OobRead? && p' < |cells| && 0 < len' <= Room(c.ws, |cells|, p', 0)
    ensures KeepStep(c, cells[p], col, bytes, mode, oq.OobRead?, acc.failed) && Coherent(c, cells, s.cache)
    ensures KeepRead(c, cells, p', 0, len', mode, oq'.OobRead?, acc'.failed)
  {
    RestFits(c, |cells|, p, col, len, bytes, mode, oq, oq', p', len');
    KeepUnfold(c, cells, p, col, len, mode, oq.OobRead?, acc.failed, bytes);
    StepCoherent(c, cells, cache, p, col, bytes, mode, oq.OobRead?, acc.failed);
  }

  /** Both reads unfolded by one page, and where they end */
  lemma BothUnfold(c: Config, cells: seq<Page>, cache: Cache, p: nat, col: nat, len: nat, bytes: nat, mode: Mode,
                   oq: OobRead, acc: ReadOut, s: StepOut, acc': ReadOut, oq': OobRead, p': nat, len': nat)
    requires ValidCells(c, cells) && ValidCache(c, cells, cache) && ReadFits(c, mode, oq)
    requires col < c.ws && len <= Room(c.ws, |cells|, p, col) && bytes == c.ws - col < len
    requires s == ReadStep(c, cells, cache, p, col, bytes, mode, oq.OobRead?, acc.failed)
    requires acc' == Extend(acc, s, TurnPiece(c, cells[p], col, bytes, mode, oq))
    requires oq' == ReadRest(c, mode, oq) && p' == p + 1 && len' == len - bytes
    ensures ReadFits(c, mode, oq') && p' < |cells| && 0 < len' <= Room(c.ws, |cells|, p', 0)
    ensures CachedRead(c, cells, cache, p, col, len, mode, oq, acc) ==
            CachedRead(c, cells, s.cache, p', 0, len', mode, oq', acc')
    ensures Follows(ReadPages(c, cells, p, col, len, mode, oq), PageRead(c, cells[p], col, bytes, mode, oq.OobRead?),
                    TurnPiece(c, cells[p], col, bytes, mode, oq), ReadPages(c, cells, p', 0, len', mode, oq'))
    ensures LastPage(c.ws, p, col, len) == LastPage(c.ws, p', 0, len')
  {
    CachedMore(c, cells, cache, p, col, len, bytes, mode, oq, acc, s, acc', oq', p', len');
    ReadMore(c, cells, p, col, len, bytes, mode, oq, oq');
  }

  lemma KeepUnfold(c: Config, cells: seq<Page>, p: nat, col: nat, len: nat, mode: Mode, hasOob: bool, earlier: nat,
                   bytes: nat)
    requires ValidCells(c, cells) && col < c.ws && len <= Room(c.ws, |cells|, p, col) && bytes == c.ws - col < len
    requires KeepRead(c, cells, p, col, len, mode, hasOob, earlier)
    ensures p < |cells| && KeepStep(c, cells[p], col, bytes, mode, hasOob, earlier)
    ensures 0 < len - bytes <= Room(c.ws, |cells|, p + 1, 0)
    ensures KeepRead(c, cells, p + 1, 0, len - bytes, mode, hasOob,
                     earlier + PageRead(c, cells[p], col, bytes, mode, hasOob).failed)
  {
  }

  lemma LongReadExact(c: Config, cells: seq<Page>, cache: Cache, p: nat, col: nat, bytes: nat, mode: Mode, hasOob: bool,
                      acc: ReadOut, s: StepOut, pr: PageOut, piece: seq<byte>, acc': ReadOut, last: nat, r: Loaded,
                      u: ReadOut, u': ReadOut)
    requires ValidCells(c, cells) && ValidCache(c, cells, cache) && Coherent(c, cells, cache)
    requires p < |cells| && p < last && col < c.ws && bytes == c.ws - col && ValidCache(c, cells, r.cache)
    requires KeepStep(c, cells[p], col, bytes, mode, hasOob, acc.failed)
    requires s == ReadStep(c, cells, cache, p, col, bytes, mode, hasOob, acc.failed)
    requires pr == PageRead(c, cells[p], col, bytes, mode, hasOob)
    requires acc' == Extend(acc, s, piece) && Follows(u, pr, piece, u')
    requires ReadExact(c, cells, s.cache.pagebuf, p + 1, 0, last, mode, hasOob, acc', r, u')
    ensures ReadExact(c, cells, cache.pagebuf, p, col, last, mode, hasOob, acc, r, u)
  {
    TurnExact(c, cells, cache, p, col, bytes, mode, hasOob, acc.failed, last, s, pr);
    MoreExact(c, cells, cache.pagebuf, s.cache.pagebuf, p, col, last, mode, hasOob, acc, s, piece, acc', r, pr, u, u');
  }

  /** A read with an OOB buffer does not look at the cache: it gives what an uncached read gives, whatever the cache holds. */
  lemma {:induction false} OobReadExact(c: Config, cells: seq<Page>, cache: Cache, p: nat, col: nat, len: nat, mode: Mode,
                                        oq: OobRead, acc: ReadOut)
    requires ValidCells(c, cells) && ValidCache(c, cells, cache) && oq.OobRead? && ReadFits(c, mode, oq)
    requires col < c.ws && p < |cells| && len <= Room(c.ws, |cells|, p, col)
    ensures Adds(acc, ReadPages(c, cells, p, col, len, mode, oq),
                 CachedRead(c, cells, cache, p, col, len, mode, oq, acc).out)
    decreases len
  {
    if len <= c.ws - col {
      OobStep(c, cells, cache, p, col, len, mode, acc.failed);
      var s := ReadStep(c, cells, cache, p, col, len, mode, true, acc.failed);
      CachedLast(c, cells, cache, p, col, len, mode, oq, acc, s, Extend(acc, s, TurnPiece(c, cells[p], col, len, mode, oq)));
      ReadLast(c, cells, p, col, len, mode, oq);
    } else {
      var bytes, oq', p', len' := c.ws - col, ReadRest(c, mode, oq), p + 1, len - (c.ws - col);
      var s := ReadStep(c, cells, cache, p, col, bytes, mode, true, acc.failed);
      var piece := TurnPiece(c, cells[p], col, bytes, mode, oq);
      var acc' := Extend(acc, s, piece);
      BothUnfold(c, cells, cache, p, col, len, bytes, mode, oq, acc, s, acc', oq', p', len');
      OobReadExact(c, cells, s.cache, p', 0, len', mode, oq', acc');
      OobStep(c, cells, cache, p, col, bytes, mode, acc.failed);
      SumsAdd(acc, s, piece, acc', PageRead(c, cells[p], col, bytes, mode, true), ReadPages(c, cells, p, col, len, mode, oq),
              ReadPages(c, cells, p', 0, len', mode, oq'), CachedRead(c, cells, s.cache, p', 0, len', mode, oq', acc').out);
    }
  }

  lemma OobStep(c: Config, cells: seq<Page>, cache: Cache, p: nat, col: nat, bytes: nat, mode: Mode, earlier: nat)
    requires ValidCells(c, cells) && ValidCache(c, cells, cache) && p < |cells| && col + bytes <= c.ws
    ensures var s, r := ReadStep(c, cells, cache, p, col, bytes, mode, true, earlier),
                        PageRead(c, cells[p], col, bytes, mode, true);
            s.data == r.data && s.failed == r.failed && s.corrected == r.corrected
  {
  }

  /** r is what was read before, and then u. */
  ghost predicate Adds(acc: ReadOut, u: ReadOut, r: ReadOut) {
    && r.data == acc.data + u.data && r.oob == acc.oob + u.oob
    && r.failed == acc.failed + u.failed && r.corrected == acc.corrected + u.corrected
  }

  lemma SumsAdd(acc: ReadOut, s: StepOut, piece: seq<byte>, acc': ReadOut, pr: PageOut, u: ReadOut, u': ReadOut, r: ReadOut)
    requires acc' == Extend(acc, s, piece) && Adds(acc', u', r) && Follows(u, pr, piece, u')
    requires s.data == pr.data && s.failed == pr.failed && s.corrected == pr.corrected
    ensures Adds(acc, u, r)
  {
    JoinBytes(acc.data, s.data, u'.data);
    JoinBytes(acc.oob, piece, u'.oob);
  }

  // ---------------------------------------------------------------- invalidation by writes

  lemma {:induction false} LastPageIs(ws: nat, p: nat, col: nat, len: nat)
    requires col < ws && len > 0
    ensures LastPage(ws, p, col, len) * ws < p * ws + col + len <= (LastPage(ws, p, col, len) + 1) * ws
    decreases len
  {
    if len > ws - col {
      LastPageIs(ws, p + 1, 0, len - (ws - col));
    } else {
      assert (p + 1) * ws == p * ws + ws;
    }
  }

  /** The cached page is one the rest of the write leaves alone, or writes through the page buffer. */
  predicate Apart(pagebuf: int, p: nat, col: nat, last: nat) {
    pagebuf < p || (pagebuf == p && col != 0) || pagebuf > last
  }

  /** The test `to <= (pagebuf << page_shift) < to + len`, with the shift done in 32 bits. */
  predicate InvalidationGuard(start: int, to: nat, len: nat) {
    to <= Int32(start) < to + len
  }

  lemma MulStrict(a: nat, b: nat, ws: nat)
    requires a < b
    ensures a * ws + ws <= b * ws
  {
    MulMono(a + 1, b, ws);
    assert (a + 1) * ws == a * ws + ws;
  }

  lemma StartsAfter(ws: nat, q: nat, p: nat, col: nat)
    requires col < ws
    ensures p * ws + col <= q * ws <==> p < q || (p == q && col == 0)
  {
    if p < q {
      MulStrict(p, q, ws);
    } else if q < p {
      MulStrict(q, p, ws);
    }
  }

  lemma StartsBefore(ws: nat, q: nat, end: nat, last: nat)
    requires last * ws < end <= (last + 1) * ws
    ensures q * ws < end <==> q <= last
  {
    if q <= last { MulMono(q, last, ws); } else { MulMono(last + 1, q, ws); }
  }

  /** Where the start of page q lies with respect to a stretch, in page numbers. */
  lemma StartInStretch(ws: nat, q: nat, p: nat, col: nat, len: nat)
    requires col < ws && len > 0
    ensures p * ws + col <= q * ws < p * ws + col + len <==> !Apart(q, p, col, LastPage(ws, p, col, len))
  {
    LastPageIs(ws, p, col, len);
    StartsAfter(ws, q, p, col);
    StartsBefore(ws, q, p * ws + col + len, LastPage(ws, p, col, len));
  }

  lemma SmallInt32(x: nat)
    requires x < 0x8000_0000
    ensures Int32(x) == x
  {
  }

  /** A cached page that starts below 2 GiB survives the test exactly when it is apart from the write. */
  lemma GuardExact(ws: nat, pagebuf: nat, p: nat, col: nat, len: nat, start: nat, to: nat)
    requires col < ws && len > 0 && start == pagebuf * ws < 0x8000_0000 && to == p * ws + col
    ensures InvalidationGuard(start, to, len) <==> !Apart(pagebuf, p, col, LastPage(ws, p, col, len))
  {
    SmallInt32(start);
    StartInStretch(ws, pagebuf, p, col, len);
  }

  /** For a cached page that the write covers from its first byte on, the test fires exactly below 2 GiB. */
  lemma GuardFiresExactly(start: nat, to: nat, len: nat)
    requires to <= start < to + len && len <= 0x1_0000_0000
    ensures InvalidationGuard(start, to, len) <==> start < 0x8000_0000
  {
    if start < 0x8000_0000 {
      SmallInt32(start);
    } else {
      WrapsDown(start);
    }
  }

  lemma WrapsDown(start: nat)
    requires start >= 0x8000_0000
    ensures Int32(start) <= start - 0x1_0000_0000
  {
  }

  // ---------------------------------------------------------------- a whole write, cache included

  /** The cache after a turn of the write loop: a partial page is built in the page buffer, which then caches nothing. */
  function TurnCache(ws: nat, cache: Cache, col: nat, part: seq<byte>): Cache
    requires col + |part| <= ws
  {
    if col == 0 && |part| == ws then cache else Cache(-1, Padded(ws, col, part))
  }

  datatype Wrote = Wrote(cache: Cache, out: WriteOut)

  /** The data fits into the device from column col of page p on. */
  ghost predicate CanWrite(c: Config, env: Env, cells: seq<Page>, cache: Cache, p: nat, col: nat, data: seq<byte>,
                           mode: Mode, ow: OobWrite, spare: seq<byte>)
  {
    && ValidEnv(c, env) && ValidCells(c, cells) && ValidCache(c, cells, cache) && |spare| == c.oobSize
    && col < c.ws && 0 < |data| <= Room(c.ws, |cells|, p, col) && OobFits(c, mode, ow)
  }

  /** The write loop: data from column col of page p is still to be written, k programs and `done` bytes into the call. */
  function CachedWrite(c: Config, env: Env, cells: seq<Page>, cache: Cache, k: nat, p: nat, col: nat, data: seq<byte>,
                       mode: Mode, ow: OobWrite, spare: seq<byte>, done: nat): (r: Wrote)
    requires CanWrite(c, env, cells, cache, p, col, data, mode, ow, spare)
    ensures ValidCells(c, r.out.cells) && ValidCache(c, r.out.cells, r.cache) && |r.out.spare| == c.oobSize
    decreases |data|
  {
    var bytes := Min(c.ws - col, |data|);
    var image := TurnImage(c, col, data[..bytes], mode, ow, spare);
    var cells' := Program(c, cells, p, image.bits, env, k);
    var cache' := TurnCache(c.ws, cache, col, data[..bytes]);
    if ProgFails(env, k) then Wrote(cache', WriteOut(cells', image.oob, done, EIo))
    else if bytes == |data| then Wrote(cache', WriteOut(cells', image.oob, done + bytes, Ok))
    else
      CachedWrite(c, env, cells', cache', k + 1, p + 1, 0, data[bytes..], mode, OobRest(c, mode, ow), image.oob, done + bytes)
  }

  /** What one turn makes of the flash, the cache and the staging buffer */
  ghost predicate TurnDone(c: Config, env: Env, cells: seq<Page>, cache: Cache, k: nat, p: nat, col: nat, data: seq<byte>,
                           bytes: nat, mode: Mode, ow: OobWrite, spare: seq<byte>, cells': seq<Page>, cache': Cache,
                           spare': seq<byte>)
    requires ValidEnv(c, env) && ValidCells(c, cells) && |spare| == c.oobSize && OobFits(c, mode, ow)
    requires p < |cells| && bytes <= |data| && col + bytes <= c.ws
  {
    var image := TurnImage(c, col, data[..bytes], mode, ow, spare);
    && cells' == Program(c, cells, p, image.bits, env, k) && spare' == image.oob
    && cache' == TurnCache(c.ws, cache, col, data[..bytes])
  }

  /** The whole call is what writing the rest from here gives. */
  ghost predicate WriteRemains(c: Config, env: Env, cells: seq<Page>, cache: Cache, k: nat, p: nat, col: nat,
                               data: seq<byte>, mode: Mode, ow: OobWrite, spare: seq<byte>, done: nat, whole: Wrote)
  {
    && CanWrite(c, env, cells, cache, p, col, data, mode, ow, spare)
    && whole == CachedWrite(c, env, cells, cache, k, p, col, data, mode, ow, spare, done)
  }

  /** The call has come to its end. */
  ghost predicate WriteOver(whole: Wrote, cells: seq<Page>, cache: Cache, spare: seq<byte>, done: nat, ret: Ret) {
    && whole.cache == cache && whole.out.cells == cells && whole.out.spare == spare
    && whole.out.done == done && whole.out.ret == ret
  }

  /** A turn in terms of what remains */
  lemma WriteTurned(c: Config, env: Env, cells: seq<Page>, cache: Cache, k: nat, p: nat, col: nat, data: seq<byte>,
                    bytes: nat, mode: Mode, ow: OobWrite, spare: seq<byte>, done: nat, whole: Wrote,
                    cells': seq<Page>, cache': Cache, spare': seq<byte>, data': seq<byte>, ow': OobWrite, k': nat, p': nat)
    requires WriteRemains(c, env, cells, cache, k, p, col, data, mode, ow, spare, done, whole)
    requires bytes == Min(c.ws - col, |data|) && data' == data[bytes..] && ow' == OobRest(c, mode, ow)
    requires k' == k + 1 && p' == p + 1
    requires TurnDone(c, env, cells, cache, k, p, col, data, bytes, mode, ow, spare, cells', cache', spare')
    ensures ProgFails(env, k) ==> WriteOver(whole, cells', cache', spare', done, EIo)
    ensures !ProgFails(env, k) && bytes == |data| ==> WriteOver(whole, cells', cache', spare', done + bytes, Ok)
    ensures !ProgFails(env, k) && bytes < |data| ==>
              WriteRemains(c, env, cells', cache', k', p', 0, data', mode, ow', spare', done + bytes, whole)
  {
    CachedWriteTurn(c, env, cells, cache, k, p, col, data, bytes, mode, ow, spare, done, whole, cells', cache', spare',
                    data', ow');
  }

  /** One turn of the loop, with the exits it takes */
  lemma CachedWriteTurn(c: Config, env: Env, cells: seq<Page>, cache: Cache, k: nat, p: nat, col: nat, data: seq<byte>,
                        bytes: nat, mode: Mode, ow: OobWrite, spare: seq<byte>, done: nat, whole: Wrote,
                        cells': seq<Page>, cache': Cache, spare': seq<byte>, data': seq<byte>, ow': OobWrite)
    requires CanWrite(c, env, cells, cache, p, col, data, mode, ow, spare)
    requires bytes == Min(c.ws - col, |data|) && data' == data[bytes..] && ow' == OobRest(c, mode, ow)
    requires TurnDone(c, env, cells, cache, k, p, col, data, bytes, mode, ow, spare, cells', cache', spare')
    requires whole == CachedWrite(c, env, cells, cache, k, p, col, data, mode, ow, spare, done)
    ensures ProgFails(env, k) ==> whole == Wrote(cache', WriteOut(cells', spare', done, EIo))
    ensures !ProgFails(env, k) && bytes == |data| ==> whole == Wrote(cache', WriteOut(cells', spare', done + bytes, Ok))
    ensures !ProgFails(env, k) && bytes < |data| ==>
              CanWrite(c, env, cells', cache', p + 1, 0, data', mode, ow', spare')
              && whole == CachedWrite(c, env, cells', cache', k + 1, p + 1, 0, data', mode, ow', spare', done + bytes)
  {
    if ProgFails(env, k) {
      WroteFails(c, env, cells, cache, k, p, col, data, bytes, mode, ow, spare, done, cells', cache', spare');
    } else if bytes == |data| {
      WroteLast(c, env, cells, cache, k, p, col, data, bytes, mode, ow, spare, done, cells', cache', spare');
    } else {
      WroteMore(c, env, cells, cache, k, p, col, data, bytes, mode, ow, spare, done, cells', cache', spare', data', ow');
    }
  }

  lemma WroteFails(c: Config, env: Env, cells: seq<Page>, cache: Cache, k: nat, p: nat, col: nat, data: seq<byte>,
                   bytes: nat, mode: Mode, ow: OobWrite, spare: seq<byte>, done: nat, cells': seq<Page>, cache': Cache,
                   spare': seq<byte>)
    requires CanWrite(c, env, cells, cache, p, col, data, mode, ow, spare)
    requires bytes == Min(c.ws - col, |data|) && ProgFails(env, k)
    requires TurnDone(c, env, cells, cache, k, p, col, data, bytes, mode, ow, spare, cells', cache', spare')
    ensures CachedWrite(c, env, cells, cache, k, p, col, data, mode, ow, spare, done) ==
            Wrote(cache', WriteOut(cells', spare', done, EIo))
  {
    var r := CachedWrite(c, env, cells, cache, k, p, col, data, mode, ow, spare, done);
    assert r.cache == cache' && r.out.done == done && r.out.ret == EIo;
    assert r.out.cells == cells' && r.out.spare == spare';
  }

  lemma WroteLast(c: Config, env: Env, cells: seq<Page>, cache: Cache, k: nat, p: nat, col: nat, data: seq<byte>,
                  bytes: nat, mode: Mode, ow: OobWrite, spare: seq<byte>, done: nat, cells': seq<Page>, cache': Cache,
                  spare': seq<byte>)
    requires CanWrite(c, env, cells, cache, p, col, data, mode, ow, spare)
    requires bytes == Min(c.ws - col, |data|) == |data| && !ProgFails(env, k)
    requires TurnDone(c, env, cells, cache, k, p, col, data, bytes, mode, ow, spare, cells', cache', spare')
    ensures CachedWrite(c, env, cells, cache, k, p, col, data, mode, ow, spare, done) ==
            Wrote(cache', WriteOut(cells', spare', done + bytes, Ok))
  {
    var r := CachedWrite(c, env, cells, cache, k, p, col, data, mode, ow, spare, done);
    assert r.cache == cache' && r.out.done == done + bytes && r.out.ret == Ok;
    assert r.out.cells == cells' && r.out.spare == spare';
  }

  lemma WroteMore(c: Config, env: Env, cells: seq<Page>, cache: Cache, k: nat, p: nat, col: nat, data: seq<byte>,
                  bytes: nat, mode: Mode, ow: OobWrite, spare: seq<byte>, done: nat, cells': seq<Page>, cache': Cache,
                  spare': seq<byte>, data': seq<byte>, ow': OobWrite)
    requires CanWrite(c, env, cells, cache, p, col, data, mode, ow, spare)
    requires bytes == Min(c.ws - col, |data|) < |data| && !ProgFails(env, k) && data' == data[bytes..] && ow' == OobRest(c, mode, ow)
    requires TurnDone(c, env, cells, cache, k, p, col, data, bytes, mode, ow, spare, cells', cache', spare')
    ensures CanWrite(c, env, cells', cache', p + 1, 0, data', mode, ow', spare')
    ensures CachedWrite(c, env, cells, cache, k, p, col, data, mode, ow, spare, done) ==
            CachedWrite(c, env, cells', cache', k + 1, p + 1, 0, data', mode, ow', spare', done + bytes)
  {
    CanWriteOn(c, env, cells, cache, k, p, col, data, bytes, mode, ow, spare, cells', cache', spare', data', ow');
    WroteUnfold(c, env, cells, cache, k, p, col, data, bytes, mode, ow, spare, done,
                TurnImage(c, col, data[..bytes], mode, ow, spare), cells', cache', data', ow');
  }

  lemma CanWriteOn(c: Config, env: Env, cells: seq<Page>, cache: Cache, k: nat, p: nat, col: nat, data: seq<byte>,
                   bytes: nat, mode: Mode, ow: OobWrite, spare: seq<byte>, cells': seq<Page>, cache': Cache,
                   spare': seq<byte>, data': seq<byte>, ow': OobWrite)
    requires CanWrite(c, env, cells, cache, p, col, data, mode, ow, spare)
    requires bytes == Min(c.ws - col, |data|) < |data| && data' == data[bytes..] && ow' == OobRest(c, mode, ow)
    requires TurnDone(c, env, cells, cache, k, p, col, data, bytes, mode, ow, spare, cells', cache', spare')
    ensures CanWrite(c, env, cells', cache', p + 1, 0, data', mode, ow', spare')
  {
    MoreFits(c, |cells|, p, col, data, bytes, mode, ow, data', ow');
  }

  lemma WroteUnfold(c: Config, env: Env, cells: seq<Page>, cache: Cache, k: nat, p: nat, col: nat, data: seq<byte>,
                    bytes: nat, mode: Mode, ow: OobWrite, spare: seq<byte>, done: nat, image: Image, cells': seq<Page>,
                    cache': Cache, data': seq<byte>, ow': OobWrite)
    requires CanWrite(c, env, cells, cache, p, col, data, mode, ow, spare)
    requires bytes == Min(c.ws - col, |data|) < |data| && !ProgFails(env, k) && data' == data[bytes..] && ow' == OobRest(c, mode, ow)
    requires image == TurnImage(c, col, data[..bytes], mode, ow, spare)
    requires cells' == Program(c, cells, p, image.bits, env, k) && cache' == TurnCache(c.ws, cache, col, data[..bytes])
    requires CanWrite(c, env, cells', cache', p + 1, 0, data', mode, ow', image.oob)
    ensures CachedWrite(c, env, cells, cache, k, p, col, data, mode, ow, spare, done) ==
            CachedWrite(c, env, cells', cache', k + 1, p + 1, 0, data', mode, ow', image.oob, done + bytes)
  {
  }

  lemma MoreFits(c: Config, n: nat, p: nat, col: nat, data: seq<byte>, bytes: nat, mode: Mode, ow: OobWrite,
                 data': seq<byte>, ow': OobWrite)
    requires OobFits(c, mode, ow) && col < c.ws && bytes == Min(c.ws - col, |data|) < |data| <= Room(c.ws, n, p, col)
    requires data' == data[bytes..] && ow' == OobRest(c, mode, ow)
    ensures OobFits(c, mode, ow') && bytes == c.ws - col && p < n && 0 < |data'| <= Room(c.ws, n, p + 1, 0)
  {
    OobRestFits(c, mode, ow);
  }

  /** The flash, the staging buffer, the count and the return code are those of the write without a cache. */
  lemma {:induction false} CachedWriteOut(c: Config, env: Env, cells: seq<Page>, cache: Cache, k: nat, p: nat, col: nat,
                                          data: seq<byte>, mode: Mode, ow: OobWrite, spare: seq<byte>, done: nat)
    requires CanWrite(c, env, cells, cache, p, col, data, mode, ow, spare)
    ensures CachedWrite(c, env, cells, cache, k, p, col, data, mode, ow, spare, done).out ==
            RestOfWrites(c, env, cells, k, p, col, data, mode, ow, spare, done)
    decreases |data|
  {
    if ProgFails(env, k) || |data| <= c.ws - col {
      LastWriteOut(c, env, cells, cache, k, p, col, data, mode, ow, spare, done);
    } else {
      var bytes := c.ws - col;
      var image := TurnImage(c, col, data[..bytes], mode, ow, spare);
      var cells', spare' := Program(c, cells, p, image.bits, env, k), image.oob;
      var cache', data', ow' := TurnCache(c.ws, cache, col, data[..bytes]), data[bytes..], OobRest(c, mode, ow);
      var k', p', done' := k + 1, p + 1, done + bytes;
      BothWrites(c, env, cells, cache, k, p, col, data, bytes, mode, ow, spare, done, cells', cache', spare', data', ow',
                 k', p', done');
      CachedWriteOut(c, env, cells', cache', k', p', 0, data', mode, ow', spare', done');
    }
  }

  lemma LastWriteOut(c: Config, env: Env, cells: seq<Page>, cache: Cache, k: nat, p: nat, col: nat, data: seq<byte>,
                     mode: Mode, ow: OobWrite, spare: seq<byte>, done: nat)
    requires CanWrite(c, env, cells, cache, p, col, data, mode, ow, spare)
    requires ProgFails(env, k) || |data| <= c.ws - col
    ensures CachedWrite(c, env, cells, cache, k, p, col, data, mode, ow, spare, done).out ==
            RestOfWrites(c, env, cells, k, p, col, data, mode, ow, spare, done)
  {
    var bytes := Min(c.ws - col, |data|);
    var image := TurnImage(c, col, data[..bytes], mode, ow, spare);
    var cells', cache', spare' := Program(c, cells, p, image.bits, env, k), TurnCache(c.ws, cache, col, data[..bytes]), image.oob;
    WriteUnfold(c, env, cells, k, p, col, data, bytes, mode, ow, spare, done,
                RestOfWrites(c, env, cells, k, p, col, data, mode, ow, spare, done), cells', spare', data[bytes..],
                OobRest(c, mode, ow));
    if ProgFails(env, k) {
      WroteFails(c, env, cells, cache, k, p, col, data, bytes, mode, ow, spare, done, cells', cache', spare');
    } else {
      WroteLast(c, env, cells, cache, k, p, col, data, bytes, mode, ow, spare, done, cells', cache', spare');
    }
  }

  /** Both writes unfolded by one page that is not the last */
  lemma BothWrites(c: Config, env: Env, cells: seq<Page>, cache: Cache, k: nat, p: nat, col: nat, data: seq<byte>,
                   bytes: nat, mode: Mode, ow: OobWrite, spare: seq<byte>, done: nat, cells': seq<Page>, cache': Cache,
                   spare': seq<byte>, data': seq<byte>, ow': OobWrite, k': nat, p': nat, done': nat)
    requires CanWrite(c, env, cells, cache, p, col, data, mode, ow, spare)
    requires bytes == c.ws - col < |data| && data' == data[bytes..] && ow' == OobRest(c, mode, ow) && !ProgFails(env, k)
    requires TurnDone(c, env, cells, cache, k, p, col, data, bytes, mode, ow, spare, cells', cache', spare')
    requires k' == k + 1 && p' == p + 1 && done' == done + bytes
    ensures CanWrite(c, env, cells', cache', p', 0, data', mode, ow', spare')
    ensures CachedWrite(c, env, cells, cache, k, p, col, data, mode, ow, spare, done) ==
            CachedWrite(c, env, cells', cache', k', p', 0, data', mode, ow', spare', done')
    ensures RestOfWrites(c, env, cells, k, p, col, data, mode, ow, spare, done) ==
            RestOfWrites(c, env, cells', k', p', 0, data', mode, ow', spare', done')
  {
    WroteMore(c, env, cells, cache, k, p, col, data, bytes, mode, ow, spare, done, cells', cache', spare', data', ow');
    RestGoesOn(c, env, cells, k, p, col, data, bytes, mode, ow, spare, done,
               TurnImage(c, col, data[..bytes], mode, ow, spare), cells', data', ow', k', p', done');
  }

  /** pagebuf after the write loop: the first partial page that is reached drops it. */
  function BufAfterTurns(ws: nat, env: Env, k: nat, cached: int, col: nat, len: nat): (r: int)
    requires col < ws && len > 0
    ensures r == -1 || r == cached
    decreases len
  {
    var bytes := Min(ws - col, len);
    var b := if col == 0 && bytes == ws then cached else -1;
    if ProgFails(env, k) || bytes == len then b else BufAfterTurns(ws, env, k + 1, b, 0, len - bytes)
  }

  lemma BufTurn(ws: nat, env: Env, k: nat, cache: Cache, col: nat, data: seq<byte>, bytes: nat, cache': Cache)
    requires col < ws && data != [] && bytes == Min(ws - col, |data|) && cache' == TurnCache(ws, cache, col, data[..bytes])
    ensures ProgFails(env, k) || bytes == |data| ==> BufAfterTurns(ws, env, k, cache.pagebuf, col, |data|) == cache'.pagebuf
    ensures !ProgFails(env, k) && bytes < |data| ==>
              BufAfterTurns(ws, env, k, cache.pagebuf, col, |data|) ==
              BufAfterTurns(ws, env, k + 1, cache'.pagebuf, 0, |data| - bytes)
    ensures cache'.pagebuf == -1 || cache' == cache
  {
  }

  /** pagebuf is as computed, and the page buffer is touched only when it is dropped. */
  ghost predicate BufIs(r: Wrote, cache: Cache, b: int) {
    r.cache.pagebuf == b && (b == -1 || r.cache == cache)
  }

  lemma {:induction false} CachedWriteBuf(c: Config, env: Env, cells: seq<Page>, cache: Cache, k: nat, p: nat, col: nat,
                                          data: seq<byte>, mode: Mode, ow: OobWrite, spare: seq<byte>, done: nat)
    requires CanWrite(c, env, cells, cache, p, col, data, mode, ow, spare)
    ensures BufIs(CachedWrite(c, env, cells, cache, k, p, col, data, mode, ow, spare, done), cache,
                  BufAfterTurns(c.ws, env, k, cache.pagebuf, col, |data|))
    decreases |data|
  {
    if ProgFails(env, k) || |data| <= c.ws - col {
      LastWriteBuf(c, env, cells, cache, k, p, col, data, mode, ow, spare, done);
    } else {
      var bytes := c.ws - col;
      var image := TurnImage(c, col, data[..bytes], mode, ow, spare);
      var cells', spare' := Program(c, cells, p, image.bits, env, k), image.oob;
      var cache', data', ow' := TurnCache(c.ws, cache, col, data[..bytes]), data[bytes..], OobRest(c, mode, ow);
      var k', p', done' := k + 1, p + 1, done + bytes;
      BothWrites(c, env, cells, cache, k, p, col, data, bytes, mode, ow, spare, done, cells', cache', spare', data', ow',
                 k', p', done');
      CachedWriteBuf(c, env, cells', cache', k', p', 0, data', mode, ow', spare', done');
      BufTurn(c.ws, env, k, cache, col, data, bytes, cache');
    }
  }

  lemma LastWriteBuf(c: Config, env: Env, cells: seq<Page>, cache: Cache, k: nat, p: nat, col: nat, data: seq<byte>,
                     mode: Mode, ow: OobWrite, spare: seq<byte>, done: nat)
    requires CanWrite(c, env, cells, cache, p, col, data, mode, ow, spare)
    requires ProgFails(env, k) || |data| <= c.ws - col
    ensures BufIs(CachedWrite(c, env, cells, cache, k, p, col, data, mode, ow, spare, done), cache,
                  BufAfterTurns(c.ws, env, k, cache.pagebuf, col, |data|))
  {
    var bytes := Min(c.ws - col, |data|);
    var image := TurnImage(c, col, data[..bytes], mode, ow, spare);
    var cells', cache' := Program(c, cells, p, image.bits, env, k), TurnCache(c.ws, cache, col, data[..bytes]);
    CachedWriteTurn(c, env, cells, cache, k, p, col, data, bytes, mode, ow, spare, done,
                    CachedWrite(c, env, cells, cache, k, p, col, data, mode, ow, spare, done), cells', cache', image.oob,
                    data[bytes..], OobRest(c, mode, ow));
    BufTurn(c.ws, env, k, cache, col, data, bytes, cache');
  }

  /** Page q is one the write sends a program to, before it ends or fails. */
  predicate Reaches(ws: nat, env: Env, k: nat, p: nat, col: nat, len: nat, q: int)
    requires col < ws && len > 0
    decreases len
  {
    q == p || (!ProgFails(env, k) && ws - col < len && Reaches(ws, env, k + 1, p + 1, 0, len - (ws - col), q))
  }

  /** Pages a write does not reach are as they were. */
  lemma {:induction false} UnreachedKept(c: Config, env: Env, cells: seq<Page>, k: nat, p: nat, col: nat, data: seq<byte>,
                                         mode: Mode, ow: OobWrite, spare: seq<byte>, q: nat)
    requires ValidEnv(c, env) && ValidCells(c, cells) && |spare| == c.oobSize && q < |cells|
    requires col < c.ws && 0 < |data| <= Room(c.ws, |cells|, p, col) && OobFits(c, mode, ow)
    requires !Reaches(c.ws, env, k, p, col, |data|, q)
    ensures WritePages(c, env, cells, k, p, col, data, mode, ow, spare).cells[q] == cells[q]
    decreases |data|
  {
    if ProgFails(env, k) || |data| <= c.ws - col {
      OthersKept(c, env, cells, k, p, col, data, mode, ow, spare, q);
    } else {
      var bytes := c.ws - col;
      var image := TurnImage(c, col, data[..bytes], mode, ow, spare);
      var cells', data', ow' := Program(c, cells, p, image.bits, env, k), data[bytes..], OobRest(c, mode, ow);
      MoreFits(c, |cells|, p, col, data, bytes, mode, ow, data', ow');
      UnreachedKept(c, env, cells', k + 1, p + 1, 0, data', mode, ow', image.oob, q);
      WriteMore(c, env, cells, k, p, col, data, bytes, mode, ow, spare, image, cells', data', ow');
      assert cells'[q] == cells[q];
    }
  }

  /** A write that ends with its first page touches no other. */
  lemma OthersKept(c: Config, env: Env, cells: seq<Page>, k: nat, p: nat, col: nat, data: seq<byte>, mode: Mode,
                   ow: OobWrite, spare: seq<byte>, q: nat)
    requires ValidEnv(c, env) && ValidCells(c, cells) && |spare| == c.oobSize && q < |cells| && q != p
    requires col < c.ws && 0 < |data| <= Room(c.ws, |cells|, p, col) && OobFits(c, mode, ow)
    requires ProgFails(env, k) || |data| <= c.ws - col
    ensures WritePages(c, env, cells, k, p, col, data, mode, ow, spare).cells[q] == cells[q]
  {
    var bytes := Min(c.ws - col, |data|);
    var image := TurnImage(c, col, data[..bytes], mode, ow, spare);
    var cells' := Program(c, cells, p, image.bits, env, k);
    if ProgFails(env, k) {
      WriteFails(c, env, cells, k, p, col, data, bytes, mode, ow, spare, image, cells');
    } else {
      WriteLast(c, env, cells, k, p, col, data, bytes, mode, ow, spare, image, cells');
    }
  }

  /**
   The write loop keeps a coherent cache coherent if a partial page drops it or the cached page is not reached. If
   neither, the page buffer still holds the bytes from before the write.
   */
  lemma CachedWriteCoherent(c: Config, env: Env, cells: seq<Page>, cache: Cache, k: nat, p: nat, col: nat,
                            data: seq<byte>, mode: Mode, ow: OobWrite, spare: seq<byte>, done: nat)
    requires CanWrite(c, env, cells, cache, p, col, data, mode, ow, spare) && Coherent(c, cells, cache)
    ensures var r := CachedWrite(c, env, cells, cache, k, p, col, data, mode, ow, spare, done);
            if BufAfterTurns(c.ws, env, k, cache.pagebuf, col, |data|) == -1
               || !Reaches(c.ws, env, k, p, col, |data|, cache.pagebuf)
            then Coherent(c, r.out.cells, r.cache)
            else r.cache.databuf == Decode(c, cells[cache.pagebuf]).data
  {
    CachedWriteOut(c, env, cells, cache, k, p, col, data, mode, ow, spare, done);
    CachedWriteBuf(c, env, cells, cache, k, p, col, data, mode, ow, spare, done);
    if cache.pagebuf >= 0 && !Reaches(c.ws, env, k, p, col, |data|, cache.pagebuf) {
      UnreachedKept(c, env, cells, k, p, col, data, mode, ow, spare, cache.pagebuf);
    }
  }

  // ---------------------------------------------------------------- the request around the loop

  /** A write starts and ends at subpages, and at pages if it carries OOB bytes. */
  predicate RequestAligned(c: Config, to: nat, len: nat, ow: OobWrite) {
    && to % c.subpageSize == 0 && len % c.subpageSize == 0
    && (ow.OobWrite? ==> to % c.ws == 0 && len % c.ws == 0)
  }

  /** The OOB bytes of a write that do not start at 0 have to fit into one page. */
  predicate OobTooLong(c: Config, mode: Mode, ow: OobWrite) {
    ow.OobWrite? && ow.offs != 0 && ow.offs + |ow.bytes| > |Slots(c.free, c.oobSize, mode)|
  }

  /** pagebuf after the test at the head of a write */
  function BufAfterTest(c: Config, cached: int, to: nat, len: nat): (r: int)
    ensures r == -1 || r == cached
  {
    if InvalidationGuard(cached * c.ws, to, len) then -1 else cached
  }

  /** pagebuf after nand_do_write_ops: rejected requests come before the test, or, with OOB bytes too long, after it. */
  function BufAfterWrite(c: Config, env: Env, cached: int, to: nat, len: nat, mode: Mode, ow: OobWrite): (r: int)
    requires len > 0 ==> ColOf(c, to) < c.ws
    ensures r == -1 || r == cached
  {
    if len == 0 || !RequestAligned(c, to, len, ow) || env.protected then cached
    else if OobTooLong(c, mode, ow) then BufAfterTest(c, cached, to, len)
    else BufAfterTurns(c.ws, env, 0, BufAfterTest(c, cached, to, len), ColOf(c, to), len)
  }

  /** The cached page is dropped by the write, or not reached by it. */
  ghost predicate KeepWrite(c: Config, env: Env, cached: int, to: nat, len: nat, mode: Mode, ow: OobWrite)
    requires len > 0 && ColOf(c, to) < c.ws
  {
    BufAfterWrite(c, env, cached, to, len, mode, ow) == -1
    || !RequestAligned(c, to, len, ow) || env.protected || OobTooLong(c, mode, ow)
    || !Reaches(c.ws, env, 0, PageOf(c, to), ColOf(c, to), len, cached)
  }

  lemma {:induction false} ReachedInside(ws: nat, env: Env, k: nat, p: nat, col: nat, len: nat, q: int)
    requires col < ws && len > 0 && Reaches(ws, env, k, p, col, len, q)
    ensures p <= q <= LastPage(ws, p, col, len)
    decreases len
  {
    if q != p {
      ReachedInside(ws, env, k + 1, p + 1, 0, len - (ws - col), q);
    }
  }

  /** A partial first page drops the cache. */
  lemma {:induction false} DroppedStays(ws: nat, env: Env, k: nat, col: nat, len: nat)
    requires col < ws && len > 0
    ensures BufAfterTurns(ws, env, k, -1, col, len) == -1
  {
  }

  /** A cached page that starts below 2 GiB is always dropped or not reached. */
  lemma LowPageKept(c: Config, env: Env, cached: int, to: nat, len: nat, mode: Mode, ow: OobWrite)
    requires len > 0 && ColOf(c, to) < c.ws && PageOf(c, to) * c.ws + ColOf(c, to) == to
    requires -1 <= cached && (cached == -1 || cached * c.ws < 0x8000_0000)
    ensures KeepWrite(c, env, cached, to, len, mode, ow)
  {
    var p, col := PageOf(c, to), ColOf(c, to);
    if Reaches(c.ws, env, 0, p, col, len, cached) {
      ReachedInside(c.ws, env, 0, p, col, len, cached);
      MulMono(0, cached, c.ws);
      assert cached * c.ws >= 0;
      LowPageDropped(c, env, cached, p, col, to, len, cached * c.ws, BufAfterTest(c, cached, to, len));
    }
  }

  lemma LowPageDropped(c: Config, env: Env, cached: nat, p: nat, col: nat, to: nat, len: nat, start: nat, b: int)
    requires len > 0 && col < c.ws && p * c.ws + col == to && start == cached * c.ws < 0x8000_0000
    requires p <= cached <= LastPage(c.ws, p, col, len) && b == if InvalidationGuard(start, to, len) then -1 else cached
    ensures BufAfterTurns(c.ws, env, 0, b, col, len) == -1
  {
    GuardExact(c.ws, cached, p, col, len, start, to);
    if b == -1 {
      DroppedStays(c.ws, env, 0, col, len);
    } else {
      assert cached == p && col != 0;
      FirstPartialDrops(c.ws, env, 0, cached, col, len);
    }
  }

  lemma FirstPartialDrops(ws: nat, env: Env, k: nat, cached: int, col: nat, len: nat)
    requires 0 < col < ws && len > 0
    ensures BufAfterTurns(ws, env, k, cached, col, len) == -1
  {
    if !ProgFails(env, k) && ws - col < len {
      DroppedStays(ws, env, k + 1, 0, len - (ws - col));
    }
  }

  /** nand_do_write_ops, exactly: what it makes of the flash, the cache, the staging buffer, and what it returns */
  ghost predicate WriteDone(c: Config, env: Env, cells: seq<Page>, cache: Cache, spare: seq<byte>, to: nat, data: seq<byte>,
                            mode: Mode, ow: OobWrite, cells': seq<Page>, cache': Cache, spare': seq<byte>, ret: Ret,
                            retlen: nat)
    requires ValidEnv(c, env) && ValidCells(c, cells) && ValidCache(c, cells, cache) && |spare| == c.oobSize
    requires InDevice(c, |cells|, to, |data|)
  {
    if data == [] then cells' == cells && cache' == cache && spare' == spare && ret.Ok? && retlen == 0
    else if !RequestAligned(c, to, |data|, ow) then
      cells' == cells && cache' == cache && spare' == spare && ret.EInval? && retlen == 0
    else if env.protected then cells' == cells && cache' == cache && spare' == spare && ret.EIo? && retlen == 0
    else
      var head := cache.(pagebuf := BufAfterTest(c, cache.pagebuf, to, |data|));
      if OobTooLong(c, mode, ow) then
        cells' == cells && cache' == head && spare' == spare && ret.EInval? && retlen == 0
      else
        RequestFits(c, |cells|, to, |data|);
        Wrote(cache', WriteOut(cells', spare', retlen, ret)) ==
        CachedWrite(c, env, cells, head, 0, PageOf(c, to), ColOf(c, to), data, mode, ow,
                    if ow.NoOob? then Blank(c.oobSize) else spare, 0)
  }

  /** What that means: pagebuf, exactly, and when the cache stays coherent */
  lemma WriteDoneCache(c: Config, env: Env, cells: seq<Page>, cache: Cache, spare: seq<byte>, to: nat, data: seq<byte>,
                       mode: Mode, ow: OobWrite, cells': seq<Page>, cache': Cache, spare': seq<byte>, ret: Ret, retlen: nat)
    requires ValidEnv(c, env) && ValidCells(c, cells) && ValidCache(c, cells, cache) && |spare| == c.oobSize
    requires InDevice(c, |cells|, to, |data|) && ValidCells(c, cells') && ValidCache(c, cells', cache')
    requires WriteDone(c, env, cells, cache, spare, to, data, mode, ow, cells', cache', spare', ret, retlen)
    ensures data != [] ==> ColOf(c, to) < c.ws
    ensures cache'.pagebuf == BufAfterWrite(c, env, cache.pagebuf, to, |data|, mode, ow)
    ensures cache'.pagebuf == -1 || cache' == cache
    ensures Coherent(c, cells, cache) && (data != [] ==> KeepWrite(c, env, cache.pagebuf, to, |data|, mode, ow)) ==>
              Coherent(c, cells', cache')
  {
    if data != [] {
      RequestFits(c, |cells|, to, |data|);
      if RequestAligned(c, to, |data|, ow) && !env.protected && !OobTooLong(c, mode, ow) {
        var head := cache.(pagebuf := BufAfterTest(c, cache.pagebuf, to, |data|));
        var staged := if ow.NoOob? then Blank(c.oobSize) else spare;
        CachedWriteBuf(c, env, cells, head, 0, PageOf(c, to), ColOf(c, to), data, mode, ow, staged, 0);
        if Coherent(c, cells, cache) {
          CachedWriteCoherent(c, env, cells, head, 0, PageOf(c, to), ColOf(c, to), data, mode, ow, staged, 0);
        }
      }
    }
  }

  /** The flash, the staging buffer and the answer do not depend on the cache. */
  lemma WriteDoneOut(c: Config, env: Env, cells: seq<Page>, cache: Cache, spare: seq<byte>, to: nat, data: seq<byte>,
                     mode: Mode, ow: OobWrite, cells': seq<Page>, cache': Cache, spare': seq<byte>, ret: Ret, retlen: nat)
    requires ValidEnv(c, env) && ValidCells(c, cells) && ValidCache(c, cells, cache) && |spare| == c.oobSize
    requires InDevice(c, |cells|, to, |data|) && data != []
    requires RequestAligned(c, to, |data|, ow) && !env.protected && !OobTooLong(c, mode, ow)
    requires WriteDone(c, env, cells, cache, spare, to, data, mode, ow, cells', cache', spare', ret, retlen)
    ensures OobFits(c, mode, ow) && ColOf(c, to) < c.ws && |data| <= Room(c.ws, |cells|, PageOf(c, to), ColOf(c, to))
    ensures WriteOut(cells', spare', retlen, ret) ==
            WritePages(c, env, cells, 0, PageOf(c, to), ColOf(c, to), data, mode, ow,
                       if ow.NoOob? then Blank(c.oobSize) else spare)
  {
    RequestFits(c, |cells|, to, |data|);
    var head := cache.(pagebuf := BufAfterTest(c, cache.pagebuf, to, |data|));
    var staged := if ow.NoOob? then Blank(c.oobSize) else spare;
    CachedWriteOut(c, env, cells, head, 0, PageOf(c, to), ColOf(c, to), data, mode, ow, staged, 0);
    FromZero(c, env, cells, PageOf(c, to), ColOf(c, to), data, mode, ow, staged);
  }

  lemma FromZero(c: Config, env: Env, cells: seq<Page>, p: nat, col: nat, data: seq<byte>, mode: Mode, ow: OobWrite,
                 spare: seq<byte>)
    requires ValidEnv(c, env) && ValidCells(c, cells) && |spare| == c.oobSize
    requires col < c.ws && 0 < |data| <= Room(c.ws, |cells|, p, col) && OobFits(c, mode, ow)
    ensures RestOfWrites(c, env, cells, 0, p, col, data, mode, ow, spare, 0) ==
            WritePages(c, env, cells, 0, p, col, data, mode, ow, spare)
  {
  }

  /** Programming another page leaves a coherent cache coherent. */
  lemma OtherPageCoherent(c: Config, cells: seq<Page>, cells': seq<Page>, cache: Cache)
    requires ValidCells(c, cells) && ValidCells(c, cells') && ValidCache(c, cells, cache)
    requires Coherent(c, cells, cache)
    requires cache.pagebuf >= 0 ==> cells'[cache.pagebuf] == cells[cache.pagebuf]
    ensures ValidCache(c, cells', cache) && Coherent(c, cells', cache)
  {
  }

  // ---------------------------------------------------------------- pagebuf and staging buffer after the other calls

  /** nand_do_write_oob gets as far as its program. */
  predicate OobCarriedOut(c: Config, env: Env, n: nat, p: nat, mode: Mode, offs: nat, oob: seq<byte>) {
    var len := |Slots(c.free, c.oobSize, mode)|;
    offs + |oob| <= len && offs < len && p < n && !env.protected
  }

  function BufAfterOob(c: Config, env: Env, n: nat, cached: int, p: nat, mode: Mode, offs: nat, oob: seq<byte>): (r: int)
    ensures r == -1 || r == cached
  {
    if OobCarriedOut(c, env, n, p, mode, offs, oob) && p == cached then -1 else cached
  }

  /** The staging buffer is left blank by an OOB write that is carried out. */
  function StagedAfterOob(c: Config, env: Env, n: nat, staged: seq<byte>, p: nat, mode: Mode, offs: nat, oob: seq<byte>)
    : seq<byte>
  {
    if OobCarriedOut(c, env, n, p, mode, offs, oob) then Blank(c.oobSize) else staged
  }

  /** The flash, the return code, pagebuf and the staging buffer after an OOB write */
  datatype Marked = Marked(cells: seq<Page>, ret: Ret, cached: int, staged: seq<byte>)

  function OobCall(c: Config, env: Env, m: Marked, k: nat, p: nat, mode: Mode, offs: nat, oob: seq<byte>): (r: Marked)
    requires ValidEnv(c, env) && ValidCells(c, m.cells)
    ensures ValidCells(c, r.cells) && (r.cached == -1 || r.cached == m.cached)
  {
    var w := WriteOobOnly(c, env, m.cells, k, p, mode, offs, oob);
    Marked(w.cells, w.ret, BufAfterOob(c, env, |m.cells|, m.cached, p, mode, offs, oob),
           StagedAfterOob(c, env, |m.cells|, m.staged, p, mode, offs, oob))
  }

  /** The marker of page q, at one or at two positions */
  function MarkOne(c: Config, env: Env, m: Marked, k: nat, q: nat): (r: Marked)
    requires ValidEnv(c, env) && ValidCells(c, m.cells)
    ensures ValidCells(c, r.cells) && (r.cached == -1 || r.cached == m.cached)
  {
    var a := OobCall(c, env, m, k, q, Place, c.badPos / 2 * 2, [0, 0]);
    if a.ret.Ok? && c.scanByte1And6 then OobCall(c, env, a, k + 1, q, Place, 4, [0, 0]) else a
  }

  /** Marking from page q on */
  function MarkAll(c: Config, env: Env, m: Marked, k: nat, q: nat, i: nat): (r: Marked)
    requires ValidEnv(c, env) && ValidCells(c, m.cells) && i < 2
    ensures ValidCells(c, r.cells) && (r.cached == -1 || r.cached == m.cached)
    decreases 2 - i
  {
    var a := MarkOne(c, env, m, k, q);
    if a.ret.Ok? && c.scan2ndPage && i + 1 < 2 then MarkAll(c, env, a, k + 2, q + 1, i + 1) else a
  }

  lemma MarkTurn(c: Config, env: Env, m: Marked, k: nat, q: nat, i: nat, a: Marked)
    requires ValidEnv(c, env) && ValidCells(c, m.cells) && i < 2 && a == MarkOne(c, env, m, k, q)
    ensures a.ret.Ok? && c.scan2ndPage && i + 1 < 2 ==> MarkAll(c, env, m, k, q, i) == MarkAll(c, env, a, k + 2, q + 1, i + 1)
    ensures !(a.ret.Ok? && c.scan2ndPage && i + 1 < 2) ==> MarkAll(c, env, m, k, q, i) == a
  {
  }

  lemma {:induction false} MarkAllCells(c: Config, env: Env, m: Marked, k: nat, q: nat, i: nat)
    requires ValidEnv(c, env) && ValidCells(c, m.cells) && i < 2
    ensures var r := MarkAll(c, env, m, k, q, i); CellsRet(r.cells, r.ret) == MarkPages(c, env, m.cells, k, q, i)
    decreases 2 - i
  {
    var a := MarkOne(c, env, m, k, q);
    if a.ret.Ok? && c.scan2ndPage && i + 1 < 2 {
      MarkAllCells(c, env, a, k + 2, q + 1, i + 1);
    }
  }

  /** pagebuf and the staging buffer do not depend on each other. */
  lemma {:induction false} MarksApart(c: Config, env: Env, m: Marked, m': Marked, k: nat, q: nat, i: nat)
    requires ValidEnv(c, env) && ValidCells(c, m.cells) && m'.cells == m.cells && i < 2
    ensures var r, r' := MarkAll(c, env, m, k, q, i), MarkAll(c, env, m', k, q, i);
            && (m.cached == m'.cached ==> r.cached == r'.cached) && (m.staged == m'.staged ==> r.staged == r'.staged)
    decreases 2 - i
  {
    var a, a' := MarkOne(c, env, m, k, q), MarkOne(c, env, m', k, q);
    if a.ret.Ok? && c.scan2ndPage && i + 1 < 2 {
      MarksApart(c, env, a, a', k + 2, q + 1, i + 1);
    }
  }

  lemma SameMarks(c: Config, env: Env, cells: seq<Page>, cached: int, staged: seq<byte>, k: nat, q: nat, i: nat)
    requires ValidEnv(c, env) && ValidCells(c, cells) && i < 2
    ensures var r := MarkAll(c, env, Marked(cells, Ok, cached, staged), k, q, i);
            && r.cached == MarkAll(c, env, Marked(cells, Ok, cached, []), k, q, i).cached
            && r.staged == MarkAll(c, env, Marked(cells, Ok, -1, staged), k, q, i).staged
  {
    MarksApart(c, env, Marked(cells, Ok, cached, staged), Marked(cells, Ok, cached, []), k, q, i);
    MarksApart(c, env, Marked(cells, Ok, cached, staged), Marked(cells, Ok, -1, staged), k, q, i);
  }

  /** nand_block_markbad marks only inside the device, and only a page that does not read bad. */
  ghost predicate Marks(c: Config, cells: seq<Page>, ofs: nat)
    requires ValidCells(c, cells)
  {
    if ofs >= |cells| * c.ws then false
    else
      OutOfDevice(c, |cells|, ofs);
      ScanInside(c, PageOf(c, ofs));
      !PageBad(c, cells[ScanPage(c, PageOf(c, ofs))])
  }

  ghost function BufAfterMarkbad(c: Config, env: Env, cells: seq<Page>, ofs: nat, cached: int): (r: int)
    requires ValidEnv(c, env) && ValidCells(c, cells)
    ensures r == -1 || r == cached
  {
    if Marks(c, cells, ofs) then MarkAll(c, env, Marked(cells, Ok, cached, []), 0, MarkPage(c, PageOf(c, ofs)), 0).cached
    else cached
  }

  ghost function StagedAfterMarkbad(c: Config, env: Env, cells: seq<Page>, ofs: nat, staged: seq<byte>): seq<byte>
    requires ValidEnv(c, env) && ValidCells(c, cells)
  {
    if Marks(c, cells, ofs) then MarkAll(c, env, Marked(cells, Ok, -1, staged), 0, MarkPage(c, PageOf(c, ofs)), 0).staged
    else staged
  }

  /** The erase of the block at page p drops a cached page of it. */
  function BufAfterBlock(c: Config, cached: int, p: nat): (r: int)
    ensures r == -1 || r == cached
  {
    if p <= cached < p + c.ppb then -1 else cached
  }

  function BufAfterErase(c: Config, env: Env, cells: seq<Page>, k: nat, p: nat, n: nat, cached: int): (r: int)
    requires ValidEnv(c, env) && ValidCells(c, cells) && p + Times(n, c.ppb) <= |cells|
    ensures r == -1 || r == cached
    decreases n
  {
    if n == 0 then cached
    else if BlockBadAt(c, cells, p) then cached
    else
      var b := BufAfterBlock(c, cached, p);
      if EraseFails(env, k) then b
      else BufAfterErase(c, env, EraseResult(c, env, cells, k, p), k + 1, p + c.ppb, n - 1, b)
  }

  lemma EraseBufEnds(c: Config, env: Env, cells: seq<Page>, k: nat, p: nat, n: nat, cached: int)
    requires ValidEnv(c, env) && ValidCells(c, cells) && n > 0 && p + Times(n, c.ppb) <= |cells| && p + c.ppb <= |cells|
    requires BlockBadAt(c, cells, p) || EraseFails(env, k)
    ensures BufAfterErase(c, env, cells, k, p, n, cached) ==
            if BlockBadAt(c, cells, p) then cached else BufAfterBlock(c, cached, p)
  {
  }

  lemma EraseBufMore(c: Config, env: Env, cells: seq<Page>, k: nat, p: nat, n: nat, cached: int)
    requires ValidEnv(c, env) && ValidCells(c, cells) && n > 0 && p + Times(n, c.ppb) <= |cells| && p + c.ppb <= |cells|
    requires !BlockBadAt(c, cells, p) && !EraseFails(env, k) && p + c.ppb + Times(n - 1, c.ppb) <= |cells|
    ensures BufAfterErase(c, env, cells, k, p, n, cached) ==
            BufAfterErase(c, env, EraseResult(c, env, cells, k, p), k + 1, p + c.ppb, n - 1, BufAfterBlock(c, cached, p))
  {
  }

  /** The call's outcome, and pagebuf after it, are what erasing n blocks from page p gives. */
  ghost predicate EraseRemains(c: Config, env: Env, cells: seq<Page>, cached: int, k: nat, p: nat, n: nat, whole: EraseOut,
                               buf: int)
  {
    && ValidEnv(c, env) && ValidCells(c, cells) && n > 0 && p + Times(n, c.ppb) <= |cells|
    && whole == RestOfErase(c, env, cells, k, p, n, k) && buf == BufAfterErase(c, env, cells, k, p, n, cached)
  }

  ghost predicate EraseOver(whole: EraseOut, buf: int, cells: seq<Page>, cached: int, ret: Ret, failPage: int) {
    cells == whole.cells && ret == whole.ret && failPage == whole.failPage && cached == buf
  }

  /** A turn of the erase loop, with the exits it takes */
  lemma EraseTurned(c: Config, env: Env, cells: seq<Page>, cached: int, k: nat, p: nat, n: nat, whole: EraseOut, buf: int,
                    cells': seq<Page>, cached': int, k': nat, p': nat, n': nat)
    requires EraseRemains(c, env, cells, cached, k, p, n, whole, buf) && p + c.ppb <= |cells|
    requires k' == k + 1 && p' == p + c.ppb && n' == n - 1
    requires cells' == if BlockBadAt(c, cells, p) then cells else EraseResult(c, env, cells, k, p)
    requires cached' == if BlockBadAt(c, cells, p) then cached else BufAfterBlock(c, cached, p)
    ensures BlockBadAt(c, cells, p) ==> EraseOver(whole, buf, cells', cached', EIo, -1)
    ensures !BlockBadAt(c, cells, p) && EraseFails(env, k) ==> EraseOver(whole, buf, cells', cached', EIo, p)
    ensures !BlockBadAt(c, cells, p) && !EraseFails(env, k) ==>
              if n' == 0 then EraseOver(whole, buf, cells', cached', Ok, -1)
              else EraseRemains(c, env, cells', cached', k', p', n', whole, buf)
  {
    if BlockBadAt(c, cells, p) || EraseFails(env, k) {
      EraseBufEnds(c, env, cells, k, p, n, cached);
      EraseStops(c, env, cells, k, p, n, k);
    } else {
      EraseGoesOn(c, env, cells, k, p, n, k, cells', k', p', n', k');
      EraseBufMore(c, env, cells, k, p, n, cached);
      if n' == 0 {
        NothingToErase(c, env, cells', k', p', k');
      }
    }
  }

  ghost function BufAfterEraseCall(c: Config, env: Env, cells: seq<Page>, addr: nat, len: nat, cached: int): (r: int)
    requires ValidEnv(c, env) && ValidCells(c, cells)
    ensures r == -1 || r == cached
  {
    if !EraseAccepted(c, |cells|, addr, len) || !(len > 0 || addr < |cells| * c.ws) || env.protected then cached
    else
      EraseFits(c, |cells|, addr, len);
      BufAfterErase(c, env, cells, 0, PageOf(c, addr), BlockCount(c, len), cached)
  }
}
