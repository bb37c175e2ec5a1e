/** Client bytes gathered from the OOB areas of several pages in turn. */
module OobShares {
  import opened Bytes
  import opened OobLayout

  /** How many client bytes a page with `avail` slots gives to a request at offset offs that still wants n */
  function Share(avail: nat, offs: nat, n: nat): nat {
    Min(Min(n, avail), if offs < avail then avail - offs else 0)
  }

  ghost predicate Areas(spares: seq<seq<byte>>, slots: seq<nat>, size: nat) {
    Within(slots, size) && forall i :: 0 <= i < |spares| ==> |spares[i]| == size
  }

  /** What one area gives */
  function Piece(spare: seq<byte>, slots: seq<nat>, offs: nat, n: nat): seq<byte>
    requires Within(slots, |spare|)
  {
    WindowWithin(slots, offs, Min(n, |slots|), |spare|);
    Gather(spare, Window(slots, offs, Min(n, |slots|)))
  }

  lemma PieceIs(spare: seq<byte>, slots: seq<nat>, offs: nat, n: nat, s: nat)
    requires Within(slots, |spare|)
    ensures |Piece(spare, slots, offs, n)| == Share(|slots|, offs, n)
    ensures s < Share(|slots|, offs, n) ==> Piece(spare, slots, offs, n)[s] == spare[slots[offs + s]]
  {
    var pos := Window(slots, offs, Min(n, |slots|));
    WindowWithin(slots, offs, Min(n, |slots|), |spare|);
    if s < Share(|slots|, offs, n) {
      GatherAt(spare, pos, s);
    }
  }

  /** What all of them give, of n bytes wanted */
  function Shares(spares: seq<seq<byte>>, slots: seq<nat>, size: nat, offs: nat, n: nat): seq<byte>
    requires Areas(spares, slots, size)
    decreases |spares|
  {
    if spares == [] then []
    else Piece(spares[0], slots, offs, n) + Shares(spares[1..], slots, size, offs, n - Min(n, |slots|))
  }

  lemma SharesCons(spare: seq<byte>, rest: seq<seq<byte>>, slots: seq<nat>, size: nat, offs: nat, n: nat)
    requires |spare| == size && Areas(rest, slots, size)
    ensures Areas([spare] + rest, slots, size)
    ensures Shares([spare] + rest, slots, size, offs, n) ==
            Piece(spare, slots, offs, n) + Shares(rest, slots, size, offs, n - Min(n, |slots|))
  {
    assert ([spare] + rest)[1..] == rest;
  }

  /** The length of the client's OOB bytes after `pages` pages */
  function Delivered(avail: nat, offs: nat, n: nat, pages: nat): nat
    decreases pages
  {
    if pages == 0 then 0 else Share(avail, offs, n) + Delivered(avail, offs, n - Min(n, avail), pages - 1)
  }

  lemma {:induction false} SharesLength(spares: seq<seq<byte>>, slots: seq<nat>, size: nat, offs: nat, n: nat)
    requires Areas(spares, slots, size)
    ensures |Shares(spares, slots, size, offs, n)| == Delivered(|slots|, offs, n, |spares|)
    decreases |spares|
  {
    if spares != [] {
      PieceIs(spares[0], slots, offs, n, 0);
      SharesLength(spares[1..], slots, size, offs, n - Min(n, |slots|));
    }
  }

  /** Without an offset that is all that was asked for, or all the pages have. */
  lemma {:induction false} DeliveredIs(avail: nat, n: nat, pages: nat)
    ensures Delivered(avail, 0, n, pages) == Min(n, pages * avail)
    decreases pages
  {
    if pages > 0 {
      DeliveredIs(avail, n - Min(n, avail), pages - 1);
      OnePageLess(pages, avail);
    }
  }

  lemma OnePageLess(i: nat, avail: nat)
    requires i > 0
    ensures i * avail == (i - 1) * avail + avail && (i - 1) * avail >= 0
  {
  }

  /** Of n OOB bytes asked for at offset offs, number t is the s-th that the i-th page gives. */
  predicate At(avail: nat, offs: nat, n: nat, i: nat, s: nat, t: nat)
    decreases i
  {
    if i == 0 then t == s < Share(avail, offs, n)
    else Share(avail, offs, n) <= t && At(avail, offs, n - Min(n, avail), i - 1, s, t - Share(avail, offs, n))
  }

  /** Without an offset the pages before the i-th have given all their slots. */
  lemma {:induction false} AtFull(avail: nat, n: nat, i: nat, s: nat, t: nat)
    requires s < avail && t == i * avail + s < n
    ensures At(avail, 0, n, i, s, t)
    decreases i
  {
    if i > 0 {
      OnePageLess(i, avail);
      AtFull(avail, n - avail, i - 1, s, t - avail);
    }
  }

  /** Byte t of what is gathered is the one at the given slot of an area. */
  ghost predicate Comes(oob: seq<byte>, t: nat, spare: seq<byte>, slots: seq<nat>, slot: nat) {
    t < |oob| && slot < |slots| && slots[slot] < |spare| && oob[t] == spare[slots[slot]]
  }

  lemma {:induction false} SharesAt(spares: seq<seq<byte>>, slots: seq<nat>, size: nat, offs: nat, n: nat, i: nat, s: nat, t: nat)
    requires Areas(spares, slots, size) && i < |spares| && At(|slots|, offs, n, i, s, t)
    ensures Comes(Shares(spares, slots, size, offs, n), t, spares[i], slots, offs + s)
    decreases i
  {
    PieceIs(spares[0], slots, offs, n, s);
    if i > 0 {
      SharesAt(spares[1..], slots, size, offs, n - Min(n, |slots|), i - 1, s, t - Share(|slots|, offs, n));
    }
  }
}

/** What a read delivers, byte by byte of the data and of the OOB buffer, over any flash contents. */
module ReadLaws {
  import opened Bytes
  import opened Geometry
  import opened OobLayout
  import opened NandSpec
  import opened WriteLaws
  import opened OobShares

  /** A request of the read loop: it lies in the device, and its OOB bytes in their pages. */
  ghost predicate CanRead(c: Config, cells: seq<Page>, p: nat, col: nat, len: nat, mode: Mode, oq: OobRead) {
    && ValidCells(c, cells) && ReadFits(c, mode, oq)
    && col < c.ws && p < |cells| && len <= Room(c.ws, |cells|, p, col)
  }

  /** How many pages a read of len bytes from column col touches */
  function PagesRead(ws: nat, col: nat, len: nat): (r: nat)
    requires col < ws
    ensures r > 0
    decreases len
  {
    if len <= ws - col then 1 else 1 + PagesRead(ws, 0, len - (ws - col))
  }

  /** They are the pages up to the one that holds the last byte. */
  lemma {:induction false} PagesReadIs(ws: nat, col: nat, len: nat)
    requires col < ws
    ensures len > 0 ==> (PagesRead(ws, col, len) - 1) * ws < col + len <= PagesRead(ws, col, len) * ws
    ensures len == 0 ==> PagesRead(ws, col, len) == 1
    decreases len
  {
    if len > ws - col {
      var len' := len - (ws - col);
      PagesReadIs(ws, 0, len');
      var n' := PagesRead(ws, 0, len');
      assert (n' + 1) * ws == n' * ws + ws && n' * ws == (n' - 1) * ws + ws;
    }
  }

  /** The OOB area that reading a page yields */
  function SpareOf(c: Config, page: Page, mode: Mode): (r: seq<byte>)
    requires |page| == c.ws + c.oobSize
    ensures |r| == c.oobSize
  {
    if mode.Raw? then page[c.ws..] else Decode(c, page).oob
  }

  /** The data bytes it yields */
  function DataOf(c: Config, page: Page, mode: Mode): (r: seq<byte>)
    requires |page| == c.ws + c.oobSize
    ensures |r| == c.ws
  {
    if mode.Raw? then page[..c.ws] else Decode(c, page).data
  }

  // ---------------------------------------------------------------- one page

  lemma PageReadOob(c: Config, page: Page, col: nat, bytes: nat, mode: Mode)
    requires |page| == c.ws + c.oobSize && col + bytes <= c.ws
    ensures PageRead(c, page, col, bytes, mode, true).oob == SpareOf(c, page, mode)
  {
  }

  lemma PageReadData(c: Config, page: Page, col: nat, bytes: nat, mode: Mode, hasOob: bool)
    requires |page| == c.ws + c.oobSize && col + bytes <= c.ws
    ensures PageRead(c, page, col, bytes, mode, hasOob).data == DataOf(c, page, mode)[col..col + bytes]
  {
  }

  // ---------------------------------------------------------------- the OOB buffer

  /** The OOB areas of so many pages from page p on */
  function SparesOf(c: Config, cells: seq<Page>, p: nat, pages: nat, mode: Mode): (r: seq<seq<byte>>)
    requires ValidCells(c, cells) && p + pages <= |cells|
    ensures |r| == pages
    decreases pages
  {
    if pages == 0 then [] else [SpareOf(c, cells[p], mode)] + SparesOf(c, cells, p + 1, pages - 1, mode)
  }

  lemma {:induction false} SparesAt(c: Config, cells: seq<Page>, p: nat, pages: nat, mode: Mode, i: nat)
    requires ValidCells(c, cells) && p + pages <= |cells| && i < pages
    ensures SparesOf(c, cells, p, pages, mode)[i] == SpareOf(c, cells[p + i], mode)
    decreases pages
  {
    if i > 0 {
      SparesAt(c, cells, p + 1, pages - 1, mode, i - 1);
    }
  }

  lemma SparesAreAreas(c: Config, cells: seq<Page>, p: nat, pages: nat, mode: Mode)
    requires ValidCells(c, cells) && p + pages <= |cells|
    ensures Areas(SparesOf(c, cells, p, pages, mode), Slots(c.free, c.oobSize, mode), c.oobSize)
  {
    SlotsWithin(c.free, c.oobSize, mode);
    forall i | 0 <= i < pages ensures |SparesOf(c, cells, p, pages, mode)[i]| == c.oobSize {
      SparesAt(c, cells, p, pages, mode, i);
    }
  }

  lemma LastOob(c: Config, cells: seq<Page>, p: nat, col: nat, len: nat, mode: Mode, offs: nat, n: nat, slots: seq<nat>)
    requires CanRead(c, cells, p, col, len, mode, OobRead(offs, n)) && len <= c.ws - col
    requires slots == Slots(c.free, c.oobSize, mode)
    ensures Within(slots, c.oobSize)
    ensures ReadPages(c, cells, p, col, len, mode, OobRead(offs, n)).oob == Piece(SpareOf(c, cells[p], mode), slots, offs, n)
  {
    SlotsWithin(c.free, c.oobSize, mode);
    ReadLast(c, cells, p, col, len, mode, OobRead(offs, n));
    PageReadOob(c, cells[p], col, len, mode);
  }

  lemma MoreOob(c: Config, cells: seq<Page>, p: nat, col: nat, len: nat, mode: Mode, offs: nat, n: nat, slots: seq<nat>, n': nat,
                len': nat)
    requires CanRead(c, cells, p, col, len, mode, OobRead(offs, n)) && len > c.ws - col
    requires slots == Slots(c.free, c.oobSize, mode) && n' == n - Min(n, |slots|) && len' == len - (c.ws - col)
    ensures CanRead(c, cells, p + 1, 0, len', mode, OobRead(offs, n')) && Within(slots, c.oobSize)
    ensures ReadPages(c, cells, p, col, len, mode, OobRead(offs, n)).oob ==
            Piece(SpareOf(c, cells[p], mode), slots, offs, n) + ReadPages(c, cells, p + 1, 0, len', mode, OobRead(offs, n')).oob
  {
    SlotsWithin(c.free, c.oobSize, mode);
    ReadMore(c, cells, p, col, len, c.ws - col, mode, OobRead(offs, n), OobRead(offs, n'));
    PageReadOob(c, cells[p], col, c.ws - col, mode);
  }

  /** The OOB bytes of a read are gathered from the pages it touches. */
  lemma {:induction false} OobIs(c: Config, cells: seq<Page>, p: nat, col: nat, len: nat, mode: Mode, offs: nat, n: nat,
                                 pages: nat, slots: seq<nat>)
    requires CanRead(c, cells, p, col, len, mode, OobRead(offs, n)) && pages == PagesRead(c.ws, col, len)
    requires slots == Slots(c.free, c.oobSize, mode)
    ensures p + pages <= |cells| && Areas(SparesOf(c, cells, p, pages, mode), slots, c.oobSize)
    ensures ReadPages(c, cells, p, col, len, mode, OobRead(offs, n)).oob ==
            Shares(SparesOf(c, cells, p, pages, mode), slots, c.oobSize, offs, n)
    decreases len
  {
    if len <= c.ws - col {
      LastOobIs(c, cells, p, col, len, mode, offs, n, slots);
    } else {
      var n', len' := n - Min(n, |slots|), len - (c.ws - col);
      MoreOob(c, cells, p, col, len, mode, offs, n, slots, n', len');
      OobIs(c, cells, p + 1, 0, len', mode, offs, n', pages - 1, slots);
      OobConsIs(c, cells, p, pages, mode, offs, n, slots, n');
    }
  }

  lemma LastOobIs(c: Config, cells: seq<Page>, p: nat, col: nat, len: nat, mode: Mode, offs: nat, n: nat, slots: seq<nat>)
    requires CanRead(c, cells, p, col, len, mode, OobRead(offs, n)) && len <= c.ws - col
    requires slots == Slots(c.free, c.oobSize, mode)
    ensures Areas(SparesOf(c, cells, p, 1, mode), slots, c.oobSize)
    ensures ReadPages(c, cells, p, col, len, mode, OobRead(offs, n)).oob ==
            Shares(SparesOf(c, cells, p, 1, mode), slots, c.oobSize, offs, n)
  {
    LastOob(c, cells, p, col, len, mode, offs, n, slots);
    SharesCons(SpareOf(c, cells[p], mode), [], slots, c.oobSize, offs, n);
    assert SparesOf(c, cells, p, 1, mode) == [SpareOf(c, cells[p], mode)] + [];
  }

  lemma OobConsIs(c: Config, cells: seq<Page>, p: nat, pages: nat, mode: Mode, offs: nat, n: nat, slots: seq<nat>, n': nat)
    requires ValidCells(c, cells) && pages > 0 && p + pages <= |cells| && n' == n - Min(n, |slots|)
    requires Areas(SparesOf(c, cells, p + 1, pages - 1, mode), slots, c.oobSize)
    ensures Areas(SparesOf(c, cells, p, pages, mode), slots, c.oobSize)
    ensures Shares(SparesOf(c, cells, p, pages, mode), slots, c.oobSize, offs, n) ==
            Piece(SpareOf(c, cells[p], mode), slots, offs, n)
            + Shares(SparesOf(c, cells, p + 1, pages - 1, mode), slots, c.oobSize, offs, n')
  {
    SharesCons(SpareOf(c, cells[p], mode), SparesOf(c, cells, p + 1, pages - 1, mode), slots, c.oobSize, offs, n);
  }

  /** How many OOB bytes a read delivers */
  lemma OobLength(c: Config, cells: seq<Page>, p: nat, col: nat, len: nat, mode: Mode, offs: nat, n: nat, slots: seq<nat>,
                  pages: nat)
    requires CanRead(c, cells, p, col, len, mode, OobRead(offs, n)) && slots == Slots(c.free, c.oobSize, mode)
    requires pages == PagesRead(c.ws, col, len)
    ensures |ReadPages(c, cells, p, col, len, mode, OobRead(offs, n)).oob| == Delivered(|slots|, offs, n, pages)
  {
    OobIs(c, cells, p, col, len, mode, offs, n, pages, slots);
    SharesLength(SparesOf(c, cells, p, pages, mode), slots, c.oobSize, offs, n);
  }

  lemma OobByteOf(c: Config, cells: seq<Page>, p: nat, pages: nat, mode: Mode, offs: nat, n: nat, slots: seq<nat>, i: nat, s: nat,
                  t: nat, q: nat, oob: seq<byte>)
    requires ValidCells(c, cells) && p + pages <= |cells| && slots == Slots(c.free, c.oobSize, mode)
    requires i < pages && At(|slots|, offs, n, i, s, t) && q == p + i
    ensures Areas(SparesOf(c, cells, p, pages, mode), slots, c.oobSize)
    ensures oob == Shares(SparesOf(c, cells, p, pages, mode), slots, c.oobSize, offs, n) ==>
              Comes(oob, t, SpareOf(c, cells[q], mode), slots, offs + s)
  {
    SparesAreAreas(c, cells, p, pages, mode);
    SparesAt(c, cells, p, pages, mode, i);
    SharesAt(SparesOf(c, cells, p, pages, mode), slots, c.oobSize, offs, n, i, s, t);
  }

  /** The s-th byte the i-th page gives comes after the shares of the pages before it, from slot offs + s. */
  lemma OobByte(c: Config, cells: seq<Page>, p: nat, col: nat, len: nat, mode: Mode, offs: nat, n: nat, slots: seq<nat>,
                pages: nat, i: nat, s: nat, t: nat, q: nat, oob: seq<byte>)
    requires CanRead(c, cells, p, col, len, mode, OobRead(offs, n)) && slots == Slots(c.free, c.oobSize, mode)
    requires oob == ReadPages(c, cells, p, col, len, mode, OobRead(offs, n)).oob
    requires pages == PagesRead(c.ws, col, len) && i < pages && At(|slots|, offs, n, i, s, t) && q == p + i
    ensures q < |cells| && Comes(oob, t, SpareOf(c, cells[q], mode), slots, offs + s)
  {
    OobIs(c, cells, p, col, len, mode, offs, n, pages, slots);
    OobByteOf(c, cells, p, pages, mode, offs, n, slots, i, s, t, q, oob);
  }

  /** A read with an OOB buffer that starts at the first slot delivers the smaller of what is asked for and what the pages hold, */
  lemma OobReadLength(c: Config, cells: seq<Page>, p: nat, col: nat, len: nat, mode: Mode, n: nat, slots: seq<nat>, pages: nat)
    requires CanRead(c, cells, p, col, len, mode, OobRead(0, n)) && slots == Slots(c.free, c.oobSize, mode)
    requires pages == PagesRead(c.ws, col, len)
    ensures |ReadPages(c, cells, p, col, len, mode, OobRead(0, n)).oob| == Min(n, pages * |slots|)
  {
    OobLength(c, cells, p, col, len, mode, 0, n, slots, pages);
    DeliveredIs(|slots|, n, pages);
  }

  /** byte t of it from slot t % avail of page t / avail of the read. */
  lemma OobReadIs(c: Config, cells: seq<Page>, p: nat, col: nat, len: nat, mode: Mode, n: nat, slots: seq<nat>, pages: nat,
                  t: nat, i: nat, s: nat, oob: seq<byte>)
    requires CanRead(c, cells, p, col, len, mode, OobRead(0, n)) && oob == ReadPages(c, cells, p, col, len, mode, OobRead(0, n)).oob
    requires slots == Slots(c.free, c.oobSize, mode)
    requires pages == PagesRead(c.ws, col, len) && t < n && t < pages * |slots| && |slots| > 0
    requires i == t / |slots| && s == t % |slots|
    ensures p + i < |cells| && Comes(oob, t, SpareOf(c, cells[p + i], mode), slots, s)
  {
    PageAndSlot(|slots|, n, pages, t, i, s);
    OobByte(c, cells, p, col, len, mode, 0, n, slots, pages, i, s, t, p + i, oob);
  }

  lemma PageAndSlot(avail: nat, n: nat, pages: nat, t: nat, i: nat, s: nat)
    requires t < n && t < pages * avail && avail > 0 && i == t / avail && s == t % avail
    ensures i < pages && s < avail && At(avail, 0, n, i, s, t)
  {
    PageOfByte(avail, pages, t, i, s);
    AtFull(avail, n, i, s, t);
  }

  lemma PageOfByte(avail: nat, pages: nat, t: nat, i: nat, s: nat)
    requires t < pages * avail && avail > 0 && i == t / avail && s == t % avail
    ensures t == i * avail + s && s < avail && i < pages
  {
    DivMod(t, avail);
    if i >= pages {
      MulMono(pages, i, avail);
    }
  }

  // ---------------------------------------------------------------- the data

  /** The data of so many pages from page p on */
  function DatasOf(c: Config, cells: seq<Page>, p: nat, pages: nat, mode: Mode): (r: seq<seq<byte>>)
    requires ValidCells(c, cells) && p + pages <= |cells|
    ensures |r| == pages
    decreases pages
  {
    if pages == 0 then [] else [DataOf(c, cells[p], mode)] + DatasOf(c, cells, p + 1, pages - 1, mode)
  }

  lemma {:induction false} DatasAt(c: Config, cells: seq<Page>, p: nat, pages: nat, mode: Mode, i: nat)
    requires ValidCells(c, cells) && p + pages <= |cells| && i < pages
    ensures DatasOf(c, cells, p, pages, mode)[i] == DataOf(c, cells[p + i], mode)
    decreases pages
  {
    if i > 0 {
      DatasAt(c, cells, p + 1, pages - 1, mode, i - 1);
    }
  }

  /** len bytes from column col of the first of some pages on */
  function Stretch(datas: seq<seq<byte>>, ws: nat, col: nat, len: nat): seq<byte>
    decreases |datas|
  {
    if datas == [] || |datas[0]| != ws || col > ws then []
    else if len <= ws - col then datas[0][col..col + len]
    else datas[0][col..] + Stretch(datas[1..], ws, 0, len - (ws - col))
  }

  lemma LastData(c: Config, cells: seq<Page>, p: nat, col: nat, len: nat, mode: Mode, oq: OobRead)
    requires CanRead(c, cells, p, col, len, mode, oq) && len <= c.ws - col
    ensures ReadPages(c, cells, p, col, len, mode, oq).data == DataOf(c, cells[p], mode)[col..col + len]
  {
    ReadLast(c, cells, p, col, len, mode, oq);
    PageReadData(c, cells[p], col, len, mode, oq.OobRead?);
  }

  lemma RestOfPage(c: Config, page: Page, col: nat, mode: Mode, hasOob: bool)
    requires |page| == c.ws + c.oobSize && col <= c.ws
    ensures PageRead(c, page, col, c.ws - col, mode, hasOob).data == DataOf(c, page, mode)[col..]
  {
    PageReadData(c, page, col, c.ws - col, mode, hasOob);
  }

  lemma MoreData(c: Config, cells: seq<Page>, p: nat, col: nat, len: nat, mode: Mode, oq: OobRead, oq': OobRead, len': nat)
    requires CanRead(c, cells, p, col, len, mode, oq) && len > c.ws - col
    requires oq' == ReadRest(c, mode, oq) && len' == len - (c.ws - col)
    ensures CanRead(c, cells, p + 1, 0, len', mode, oq')
    ensures ReadPages(c, cells, p, col, len, mode, oq).data ==
            PageRead(c, cells[p], col, c.ws - col, mode, oq.OobRead?).data + ReadPages(c, cells, p + 1, 0, len', mode, oq').data
  {
    ReadMore(c, cells, p, col, len, c.ws - col, mode, oq, oq');
  }

  /** The data of a read is a stretch of the pages it touches. */
  lemma {:induction false} DataIs(c: Config, cells: seq<Page>, p: nat, col: nat, len: nat, mode: Mode, oq: OobRead, pages: nat)
    requires CanRead(c, cells, p, col, len, mode, oq) && pages == PagesRead(c.ws, col, len)
    ensures p + pages <= |cells|
    ensures ReadPages(c, cells, p, col, len, mode, oq).data == Stretch(DatasOf(c, cells, p, pages, mode), c.ws, col, len)
    decreases len
  {
    if len <= c.ws - col {
      LastData(c, cells, p, col, len, mode, oq);
      assert DatasOf(c, cells, p, 1, mode)[0] == DataOf(c, cells[p], mode);
    } else {
      var len', oq' := len - (c.ws - col), ReadRest(c, mode, oq);
      MoreData(c, cells, p, col, len, mode, oq, oq', len');
      RestOfPage(c, cells[p], col, mode, oq.OobRead?);
      DataIs(c, cells, p + 1, 0, len', mode, oq', pages - 1);
      StretchCons(DataOf(c, cells[p], mode), DatasOf(c, cells, p + 1, pages - 1, mode), c.ws, col, len, len');
    }
  }

  lemma StretchCons(d: seq<byte>, rest: seq<seq<byte>>, ws: nat, col: nat, len: nat, len': nat)
    requires |d| == ws && col < ws && len > ws - col && len' == len - (ws - col)
    ensures Stretch([d] + rest, ws, col, len) == d[col..] + Stretch(rest, ws, 0, len')
  {
    assert ([d] + rest)[1..] == rest;
  }

  lemma {:induction false} StretchAt(datas: seq<seq<byte>>, ws: nat, col: nat, len: nat, i: nat, j: nat, x: int)
    requires col < ws && i < |datas| && j < ws && x == i * ws + j - col && 0 <= x < len
    requires forall k :: 0 <= k < |datas| ==> |datas[k]| == ws
    ensures x < |Stretch(datas, ws, col, len)| && Stretch(datas, ws, col, len)[x] == datas[i][j]
    decreases i
  {
    if i > 0 {
      OnePageLess(i, ws);
      StretchAt(datas[1..], ws, 0, len - (ws - col), i - 1, j, x - (ws - col));
    }
  }

  /** Every data byte is delivered from its place in its page, corrected unless the read is RAW. */
  lemma DataByte(c: Config, cells: seq<Page>, p: nat, col: nat, len: nat, mode: Mode, oq: OobRead, pages: nat, i: nat, j: nat,
                 x: int)
    requires CanRead(c, cells, p, col, len, mode, oq) && pages == PagesRead(c.ws, col, len)
    requires i < pages && j < c.ws && x == i * c.ws + j - col && 0 <= x < len
    ensures p + i < |cells|
    ensures ReadPages(c, cells, p, col, len, mode, oq).data[x] == DataOf(c, cells[p + i], mode)[j]
  {
    DataIs(c, cells, p, col, len, mode, oq, pages);
    forall k | 0 <= k < pages ensures |DatasOf(c, cells, p, pages, mode)[k]| == c.ws {
      DatasAt(c, cells, p, pages, mode, k);
    }
    DatasAt(c, cells, p, pages, mode, i);
    StretchAt(DatasOf(c, cells, p, pages, mode), c.ws, col, len, i, j, x);
  }

  // ---------------------------------------------------------------- the ECC counters

  /** The page function is asked for the whole page: there are no subpage reads, or there is an OOB buffer. */
  predicate WholePages(c: Config, mode: Mode, oq: OobRead) {
    !mode.Raw? && (!c.subpageRead || oq.OobRead?)
  }

  /** The steps that fail in the n pages from p on, and the bits corrected in them */
  function FailedIn(c: Config, cells: seq<Page>, p: nat, n: nat): nat
    requires ValidCells(c, cells) && p + n <= |cells|
    decreases n
  {
    if n == 0 then 0 else Decode(c, cells[p]).failed + FailedIn(c, cells, p + 1, n - 1)
  }

  function CorrectedIn(c: Config, cells: seq<Page>, p: nat, n: nat): nat
    requires ValidCells(c, cells) && p + n <= |cells|
    decreases n
  {
    if n == 0 then 0 else Decode(c, cells[p]).corrected + CorrectedIn(c, cells, p + 1, n - 1)
  }

  lemma {:induction false} SomeIn(c: Config, cells: seq<Page>, p: nat, n: nat)
    requires ValidCells(c, cells) && p + n <= |cells|
    ensures FailedIn(c, cells, p, n) > 0 <==> exists q :: p <= q < p + n && Decode(c, cells[q]).failed > 0
    ensures CorrectedIn(c, cells, p, n) > 0 <==> exists q :: p <= q < p + n && Decode(c, cells[q]).corrected > 0
    decreases n
  {
    if n > 0 {
      SomeIn(c, cells, p + 1, n - 1);
    }
  }

  /** Both counters of a read */
  ghost predicate CountsAre(c: Config, mode: Mode, oq: OobRead, failed: nat, corrected: nat, r: ReadOut) {
    && (WholePages(c, mode, oq) ==> r.failed == failed && r.corrected == corrected)
    && (mode.Raw? ==> r.failed == 0 == r.corrected)
  }

  lemma PageCounts(c: Config, page: Page, col: nat, bytes: nat, mode: Mode, oq: OobRead)
    requires |page| == c.ws + c.oobSize && col + bytes <= c.ws
    ensures var r := PageRead(c, page, col, bytes, mode, oq.OobRead?);
            && (WholePages(c, mode, oq) ==> r.failed == Decode(c, page).failed && r.corrected == Decode(c, page).corrected)
            && (mode.Raw? ==> r.failed == 0 == r.corrected)
  {
  }

  lemma RestOfCounts(c: Config, cells: seq<Page>, p: nat, col: nat, len: nat, mode: Mode, oq: OobRead, oq': OobRead, len': nat)
    requires CanRead(c, cells, p, col, len, mode, oq) && len > c.ws - col
    requires oq' == ReadRest(c, mode, oq) && len' == len - (c.ws - col)
    ensures CanRead(c, cells, p + 1, 0, len', mode, oq') && WholePages(c, mode, oq') == WholePages(c, mode, oq)
    ensures var r, rest := ReadPages(c, cells, p, col, len, mode, oq), ReadPages(c, cells, p + 1, 0, len', mode, oq');
            && (WholePages(c, mode, oq) ==> r.failed == Decode(c, cells[p]).failed + rest.failed
                                            && r.corrected == Decode(c, cells[p]).corrected + rest.corrected)
            && (mode.Raw? ==> r.failed == rest.failed && r.corrected == rest.corrected)
  {
    ReadMore(c, cells, p, col, len, c.ws - col, mode, oq, oq');
    PageCounts(c, cells[p], col, c.ws - col, mode, oq);
  }

  /** A read counts the failed steps and the corrected bits of the pages it touches; a RAW read counts none. */
  lemma {:induction false} CountsExact(c: Config, cells: seq<Page>, p: nat, col: nat, len: nat, mode: Mode, oq: OobRead,
                                       pages: nat)
    requires CanRead(c, cells, p, col, len, mode, oq) && pages == PagesRead(c.ws, col, len)
    ensures p + pages <= |cells|
    ensures CountsAre(c, mode, oq, FailedIn(c, cells, p, pages), CorrectedIn(c, cells, p, pages),
                      ReadPages(c, cells, p, col, len, mode, oq))
    decreases len
  {
    if len <= c.ws - col {
      ReadLast(c, cells, p, col, len, mode, oq);
      PageCounts(c, cells[p], col, len, mode, oq);
      OnePageIn(c, cells, p);
    } else {
      var len', oq' := len - (c.ws - col), ReadRest(c, mode, oq);
      RestOfCounts(c, cells, p, col, len, mode, oq, oq', len');
      CountsExact(c, cells, p + 1, 0, len', mode, oq', pages - 1);
    }
  }

  lemma OnePageIn(c: Config, cells: seq<Page>, p: nat)
    requires ValidCells(c, cells) && p < |cells|
    ensures FailedIn(c, cells, p, 1) == Decode(c, cells[p]).failed && CorrectedIn(c, cells, p, 1) == Decode(c, cells[p]).corrected
  {
    assert FailedIn(c, cells, p + 1, 0) == 0 && CorrectedIn(c, cells, p + 1, 0) == 0;
  }
}
