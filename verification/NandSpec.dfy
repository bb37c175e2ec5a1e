/**
 The NAND driver without its cache: what reads, writes, OOB writes, erases and bad-block
 marks mean, as functions of the flash cells alone.
 */
module NandSpec {
  import opened Bytes
  import opened Geometry
  import opened OobLayout

  type Page = seq<byte>

  /** What reading one page yields: data, OOB area, and the ECC steps that failed or were corrected. */
  datatype PageOut = PageOut(data: seq<byte>, oob: seq<byte>, failed: nat, corrected: nat)

  /** The bits sent to a page, and the staging buffer the page function leaves behind. */
  datatype Image = Image(bits: Page, oob: seq<byte>)

  /** The ECC page functions a board plugs into the core (read_page, read_subpage, write_page). */
  datatype Codec = Codec(
    decode: Page -> PageOut,
    readSub: (Page, nat, nat) -> PageOut,
    encode: (seq<byte>, seq<byte>) -> Image)

  /** The parameters of a device, before they are known to fit together */
  datatype Params = Params(
    pageShift: nat, eraseShift: nat, chipShift: nat, numChips: nat,
    ws: nat,                  // writesize
    ppb: nat,                 // pages per erase block
    ppc: nat,                 // pages per chip
    oobSize: nat,
    subpageShift: nat, subpageSize: nat,
    subpageRead: bool,        // NAND_SUBPAGE_READ
    free: seq<Region>,
    badPos: nat, badBits: nat,
    scanLastPage: bool, scan2ndPage: bool, scanByte1And6: bool,
    codec: Codec)

  ghost predicate ValidShape(c: Params) {
    && c.pageShift <= c.eraseShift <= c.chipShift
    && c.ws == Pow2(c.pageShift)
    && c.ppb == Pow2(c.eraseShift - c.pageShift)
    && c.ppc == Pow2(c.chipShift - c.pageShift)
    && c.numChips > 0
    && 0 < c.subpageShift <= c.pageShift && c.subpageSize == Pow2(c.subpageShift)
    && ValidRegions(c.free, c.oobSize)
    && 1 <= c.badBits <= 8
    && c.badPos < c.oobSize && c.badPos / 2 * 2 + 2 <= c.oobSize
  }

  ghost predicate ValidCodec(c: Params) {
    && (forall p: Page :: |p| == c.ws + c.oobSize ==>
          |c.codec.decode(p).data| == c.ws && |c.codec.decode(p).oob| == c.oobSize)
    && (forall p: Page, col: nat, n: nat :: c.subpageRead && |p| == c.ws + c.oobSize && col + n <= c.ws ==>
          c.codec.readSub(p, col, n).data == c.codec.decode(p).data[col..col + n])
    && (forall d: seq<byte>, o: seq<byte> :: |d| == c.ws && |o| == c.oobSize ==>
          |c.codec.encode(d, o).bits| == c.ws + c.oobSize && |c.codec.encode(d, o).oob| == c.oobSize)
  }

  /** A device whose sizes are powers of two and whose page functions keep to those sizes */
  type Config = c: Params | ValidShape(c) && ValidCodec(c) ghost witness Plain(1, 0, 0, 1, 2)

  /** A device without ECC: 2^pageShift data bytes a page, 2^blockShift pages a block, 2^chipShift blocks a chip. */
  ghost function Plain(pageShift: nat, blockShift: nat, chipShift: nat, numChips: nat, oobSize: nat): (c: Params)
    requires pageShift > 0 && numChips > 0 && oobSize >= 2
    ensures ValidShape(c) && ValidCodec(c)
  {
    var ws := Pow2(pageShift);
    Params(pageShift, pageShift + blockShift, pageShift + blockShift + chipShift, numChips,
           ws, Pow2(blockShift), Pow2(blockShift + chipShift), oobSize, pageShift, ws, false, [], 0, 8,
           false, false, false,
           Codec((p: Page) => if |p| >= ws then PageOut(p[..ws], p[ws..], 0, 0) else PageOut([], [], 0, 0),
                 (p: Page, col: nat, n: nat) =>
                   if col + n <= ws <= |p| then PageOut(p[..ws][col..col + n], [], 0, 0) else PageOut([], [], 0, 0),
                 (d: seq<byte>, o: seq<byte>) => Image(d + o, o)))
  }

  /** ecc.read_page on a page's contents */
  function Decode(c: Config, page: Page): (r: PageOut)
    requires |page| == c.ws + c.oobSize
    ensures |r.data| == c.ws && |r.oob| == c.oobSize
  {
    c.codec.decode(page)
  }

  /** ecc.read_subpage: the bytes a full read would give, with the counts of the steps it covers */
  function DecodePart(c: Config, page: Page, col: nat, n: nat): (r: PageOut)
    requires c.subpageRead && |page| == c.ws + c.oobSize && col + n <= c.ws
    ensures r.data == Decode(c, page).data[col..col + n]
  {
    c.codec.readSub(page, col, n)
  }

  /** ecc.write_page */
  function Encode(c: Config, data: seq<byte>, spare: seq<byte>): (r: Image)
    requires |data| == c.ws && |spare| == c.oobSize
    ensures |r.bits| == c.ws + c.oobSize && |r.oob| == c.oobSize
  {
    c.codec.encode(data, spare)
  }

  ghost predicate ValidCells(c: Config, cells: seq<Page>) {
    && |cells| == Times(c.numChips, c.ppc)
    && forall i :: 0 <= i < |cells| ==> |cells[i]| == c.ws + c.oobSize
  }

  /** The hardware's answers during one call: write protection, and the fate of its k-th program or erase. */
  datatype Env = Env(
    protected: bool,
    progFails: nat -> bool,
    torn: nat -> Page,                 // what a failed program burned in
    eraseFails: nat -> bool,
    tornErase: (nat, nat) -> Page)     // what a failed erase left in a page

  ghost predicate ValidEnv(c: Config, env: Env) {
    && (forall k: nat :: |env.torn(k)| == c.ws + c.oobSize)
    && (forall k: nat, i: nat :: |env.tornErase(k, i)| == c.ws + c.oobSize)
  }

  function ProgFails(env: Env, k: nat): bool {
    env.progFails(k)
  }

  function Torn(c: Config, env: Env, k: nat): (r: Page)
    requires ValidEnv(c, env)
    ensures |r| == c.ws + c.oobSize
  {
    env.torn(k)
  }

  function EraseFails(env: Env, k: nat): bool {
    env.eraseFails(k)
  }

  function TornErase(c: Config, env: Env, k: nat, i: nat): (r: Page)
    requires ValidEnv(c, env)
    ensures |r| == c.ws + c.oobSize
  {
    env.tornErase(k, i)
  }

  /**
   Return codes; Bug is a selected chip that does not exist, where nand_select_chip runs into BUG(), and Overrun a
   partial read of no bytes at column 0, where the number of ECC steps underflows.
   */
  datatype Ret = Ok | EInval | EIo | ERofs | EBadMsg | EUClean | Bug | Overrun

  // ---------------------------------------------------------------- bounds

  /** The page of an offset, and its column */
  function PageOf(c: Config, ofs: nat): nat {
    ShiftRight(ofs, c.pageShift)
  }

  function ColOf(c: Config, ofs: nat): nat
  {
    BitAnd(ofs, c.ws - 1)
  }

  /** The data bytes from column col of page p to the end of n pages. */
  function Room(ws: nat, n: nat, p: nat, col: nat): nat
    requires col <= ws
    decreases n - p
  {
    if p >= n then 0 else ws - col + Room(ws, n, p + 1, 0)
  }

  lemma {:induction false} RoomIs(ws: nat, n: nat, p: nat, col: nat)
    requires col <= ws && p < n
    ensures p * ws + col + Room(ws, n, p, col) == n * ws
    decreases n - p
  {
    if p + 1 < n {
      RoomIs(ws, n, p + 1, 0);
    }
  }

  /** A request of len bytes inside the device */
  ghost predicate InDevice(c: Config, n: nat, ofs: nat, len: nat) {
    ofs + len <= n * c.ws
  }

  lemma RequestFits(c: Config, n: nat, ofs: nat, len: nat)
    requires InDevice(c, n, ofs, len) && (len > 0 || ofs < n * c.ws)
    ensures ofs < n * c.ws
    ensures ColOf(c, ofs) < c.ws && PageOf(c, ofs) < n && len <= Room(c.ws, n, PageOf(c, ofs), ColOf(c, ofs))
    ensures PageOf(c, ofs) * c.ws + ColOf(c, ofs) == ofs
  {
    ColumnParts(ofs, c.pageShift, c.ws);
    PastEnd(PageOf(c, ofs), ColOf(c, ofs), c.ws, n);
    RoomIs(c.ws, n, PageOf(c, ofs), ColOf(c, ofs));
  }

  /** p << page_shift is the offset of page p */
  lemma OffsetOfPage(c: Config, p: nat)
    ensures PageOf(c, p * c.ws) == p && ColOf(c, p * c.ws) == 0
  {
    MaskAndShift(p * c.ws, c.pageShift);
    DivModUnique(p * c.ws, c.ws, p, 0);
  }

  lemma OutOfDevice(c: Config, n: nat, ofs: nat)
    ensures ofs >= n * c.ws <==> PageOf(c, ofs) >= n
  {
    ColumnParts(ofs, c.pageShift, c.ws);
    PastEnd(PageOf(c, ofs), ColOf(c, ofs), c.ws, n);
  }

  lemma PastEnd(p: nat, col: nat, ws: nat, n: nat)
    requires col < ws
    ensures p * ws + col >= n * ws <==> p >= n
  {
    if p >= n {
      MulMono(n, p, ws);
    } else {
      MulMono(p + 1, n, ws);
      assert (p + 1) * ws == p * ws + ws;
    }
  }

  // ---------------------------------------------------------------- pages on chips

  /** Page p of the device is page `local` of the selected chip. */
  predicate OnPage(c: Config, selected: int, p: nat, local: nat) {
    0 <= selected && Times(selected, c.ppc) + local == p && local < c.ppc
  }

  lemma SelectedInside(c: Config, selected: int, p: nat, local: nat)
    requires OnPage(c, selected, p, local) && p < Times(c.numChips, c.ppc)
    ensures selected < c.numChips
  {
    if selected >= c.numChips {
      TimesMono(c.numChips, selected, c.ppc);
    }
  }

  /** The page within the selected chip is the masked page number. */
  lemma MaskedPage(c: Config, selected: int, p: nat, local: nat)
    requires OnPage(c, selected, p, local)
    ensures local == BitAnd(p, c.ppc - 1)
  {
    TimesIsProduct(selected, c.ppc);
    MaskAndShift(p, c.chipShift - c.pageShift);
    DivModUnique(p, c.ppc, selected, local);
  }

  /** A block that starts on the selected chip lies on it. */
  lemma BlockOnChip(c: Config, selected: int, p: nat, local: nat)
    requires OnPage(c, selected, p, local) && p % c.ppb == 0
    ensures local + c.ppb <= c.ppc
  {
    Pow2Add(c.chipShift - c.eraseShift, c.eraseShift - c.pageShift);
    TimesIsProduct(selected, c.ppc);
    BlockInside(selected, local, c.ppb, Pow2(c.chipShift - c.eraseShift), p, c.ppc);
  }

  // ---------------------------------------------------------------- read

  /** A whole page as ecc.read_page or ecc.read_page_raw gives it. */
  function WholeRead(c: Config, page: Page, mode: Mode): (r: PageOut)
    requires |page| == c.ws + c.oobSize
    ensures |r.data| == c.ws && |r.oob| == c.oobSize
  {
    if mode.Raw? then PageOut(page[..c.ws], page[c.ws..], 0, 0) else Decode(c, page)
  }

  /** One page of a read: the requested bytes, the OOB area and the ECC counts. */
  function PageRead(c: Config, page: Page, col: nat, bytes: nat, mode: Mode, hasOob: bool): (r: PageOut)
    requires |page| == c.ws + c.oobSize && col + bytes <= c.ws
    ensures |r.data| == bytes && (hasOob ==> |r.oob| == c.oobSize)
  {
    if !mode.Raw? && bytes != c.ws && c.subpageRead && !hasOob then
      DecodePart(c, page, col, bytes)
    else
      var d := WholeRead(c, page, mode);
      PageOut(d.data[col..col + bytes], d.oob, d.failed, d.corrected)
  }

  /** The OOB buffer of a read: where the client bytes start, and how many are wanted in all. */
  datatype OobRead = NoOobRead | OobRead(offs: nat, len: nat)

  function ReadTake(c: Config, mode: Mode, oq: OobRead): nat {
    if oq.NoOobRead? then 0 else Min(oq.len, |Slots(c.free, c.oobSize, mode)|)
  }

  function ReadRest(c: Config, mode: Mode, oq: OobRead): OobRead {
    if oq.NoOobRead? then oq else OobRead(oq.offs, oq.len - ReadTake(c, mode, oq))
  }

  /** Outside AUTO mode the bytes of a page are copied from the OOB area with one memcpy, and have to lie in it. */
  ghost predicate ReadFits(c: Config, mode: Mode, oq: OobRead) {
    oq.OobRead? && !mode.Auto? ==> oq.offs + ReadTake(c, mode, oq) <= c.oobSize
  }

  /** The client OOB bytes one page contributes; in AUTO mode the free regions may end before the request. */
  function OobPiece(c: Config, oob: seq<byte>, mode: Mode, oq: OobRead): seq<byte>
    requires ReadFits(c, mode, oq) && (oq.OobRead? ==> |oob| == c.oobSize)
  {
    SlotsWithin(c.free, c.oobSize, mode);
    if oq.NoOobRead? then []
    else
      WindowWithin(Slots(c.free, c.oobSize, mode), oq.offs, ReadTake(c, mode, oq), c.oobSize);
      Gather(oob, Window(Slots(c.free, c.oobSize, mode), oq.offs, ReadTake(c, mode, oq)))
  }

  datatype ReadOut = ReadOut(data: seq<byte>, oob: seq<byte>, failed: nat, corrected: nat)

  /** An uncached read of len bytes from column col of page p; a read of no bytes still reads the page. */
  function ReadPages(c: Config, cells: seq<Page>, p: nat, col: nat, len: nat, mode: Mode, oq: OobRead): (r: ReadOut)
    requires ValidCells(c, cells) && ReadFits(c, mode, oq)
    requires col < c.ws && p < |cells| && len <= Room(c.ws, |cells|, p, col)
    ensures |r.data| == len
    decreases len
  {
    var bytes := Min(c.ws - col, len);
    var r := PageRead(c, cells[p], col, bytes, mode, oq.OobRead?);
    var piece := OobPiece(c, r.oob, mode, oq);
    if bytes == len then
      ReadOut(r.data, piece, r.failed, r.corrected)
    else
      assert Room(c.ws, |cells|, p + 1, 0) > 0;
      var rest := ReadPages(c, cells, p + 1, 0, len - bytes, mode, ReadRest(c, mode, oq));
      ReadOut(r.data + rest.data, piece + rest.oob, r.failed + rest.failed, r.corrected + rest.corrected)
  }

  /** A read whose first page is also its last */
  lemma ReadLast(c: Config, cells: seq<Page>, p: nat, col: nat, len: nat, mode: Mode, oq: OobRead)
    requires ValidCells(c, cells) && ReadFits(c, mode, oq)
    requires col < c.ws && p < |cells| && len <= Room(c.ws, |cells|, p, col) && len <= c.ws - col
    ensures var r := PageRead(c, cells[p], col, len, mode, oq.OobRead?);
            ReadPages(c, cells, p, col, len, mode, oq) ==
            ReadOut(r.data, OobPiece(c, r.oob, mode, oq), r.failed, r.corrected)
  {
    var all, r := ReadPages(c, cells, p, col, len, mode, oq), PageRead(c, cells[p], col, len, mode, oq.OobRead?);
    assert all.data == r.data && all.oob == OobPiece(c, r.oob, mode, oq);
  }

  /** A read that goes on after its first page */
  lemma ReadMore(c: Config, cells: seq<Page>, p: nat, col: nat, len: nat, bytes: nat, mode: Mode, oq: OobRead, oq': OobRead)
    requires ValidCells(c, cells) && ReadFits(c, mode, oq) && oq' == ReadRest(c, mode, oq)
    requires col < c.ws && len <= Room(c.ws, |cells|, p, col) && bytes == c.ws - col < len
    ensures ReadFits(c, mode, oq') && p + 1 < |cells| && len - bytes <= Room(c.ws, |cells|, p + 1, 0)
    ensures var r := PageRead(c, cells[p], col, bytes, mode, oq.OobRead?);
            var rest := ReadPages(c, cells, p + 1, 0, len - bytes, mode, oq');
            ReadPages(c, cells, p, col, len, mode, oq) ==
            ReadOut(r.data + rest.data, OobPiece(c, r.oob, mode, oq) + rest.oob, r.failed + rest.failed,
                    r.corrected + rest.corrected)
  {
    var all, r := ReadPages(c, cells, p, col, len, mode, oq), PageRead(c, cells[p], col, bytes, mode, oq.OobRead?);
    var rest := ReadPages(c, cells, p + 1, 0, len - bytes, mode, oq');
    assert all.data == r.data + rest.data && all.oob == OobPiece(c, r.oob, mode, oq) + rest.oob;
  }

  // ---------------------------------------------------------------- write

  /** Client OOB bytes of a write: where they go, and what they are. */
  datatype OobWrite = NoOob | OobWrite(offs: nat, bytes: seq<byte>)

  /** data at column col of an otherwise blank page */
  function Padded(ws: nat, col: nat, data: seq<byte>): (r: seq<byte>)
    requires col + |data| <= ws
    ensures |r| == ws
  {
    Blank(col) + data + Blank(ws - col - |data|)
  }

  /** memset to 0xff, then memcpy at col */
  lemma PaddedCopy(ws: nat, col: nat, data: seq<byte>)
    requires col + |data| <= ws
    ensures Padded(ws, col, data) == Blank(ws)[..col] + data + Blank(ws)[col + |data|..]
    ensures |data| == ws ==> Padded(ws, col, data) == data
  {
    BlankSlice(ws, 0, col);
    BlankSlice(ws, col + |data|, ws);
  }

  function FillSpare(c: Config, spare: seq<byte>, mode: Mode, offs: nat, oob: seq<byte>): (r: seq<byte>)
    requires |spare| == c.oobSize
    requires offs + |oob| <= |Slots(c.free, c.oobSize, mode)|
    ensures |r| == c.oobSize
  {
    SlotsWithin(c.free, c.oobSize, mode);
    Scatter(spare, Slots(c.free, c.oobSize, mode)[offs..offs + |oob|], oob)
  }

  /** How many client OOB bytes a page takes. */
  function OobTake(c: Config, mode: Mode, ow: OobWrite): nat {
    if ow.NoOob? then 0 else Min(|ow.bytes|, |Slots(c.free, c.oobSize, mode)|)
  }

  ghost predicate OobFits(c: Config, mode: Mode, ow: OobWrite) {
    ow.OobWrite? ==> ow.offs + OobTake(c, mode, ow) <= |Slots(c.free, c.oobSize, mode)|
  }

  function StageOob(c: Config, spare: seq<byte>, mode: Mode, ow: OobWrite): (r: seq<byte>)
    requires |spare| == c.oobSize && OobFits(c, mode, ow)
    ensures |r| == c.oobSize
  {
    if ow.NoOob? then spare else FillSpare(c, spare, mode, ow.offs, ow.bytes[..OobTake(c, mode, ow)])
  }

  function OobRest(c: Config, mode: Mode, ow: OobWrite): OobWrite {
    if ow.NoOob? then ow else OobWrite(ow.offs, ow.bytes[OobTake(c, mode, ow)..])
  }

  lemma OobRestFits(c: Config, mode: Mode, ow: OobWrite)
    requires OobFits(c, mode, ow)
    ensures OobFits(c, mode, OobRest(c, mode, ow))
  {
  }

  function PageImage(c: Config, data: seq<byte>, spare: seq<byte>, mode: Mode): (r: Image)
    requires |data| == c.ws && |spare| == c.oobSize
    ensures |r.bits| == c.ws + c.oobSize && |r.oob| == c.oobSize
  {
    if mode.Raw? then Image(data + spare, spare) else Encode(c, data, spare)
  }

  /** What one turn of a write sends to its page: data at column col of a blank page, over the staged OOB bytes. */
  function TurnImage(c: Config, col: nat, data: seq<byte>, mode: Mode, ow: OobWrite, spare: seq<byte>): (r: Image)
    requires col + |data| <= c.ws && |spare| == c.oobSize && OobFits(c, mode, ow)
    ensures |r.bits| == c.ws + c.oobSize && |r.oob| == c.oobSize
  {
    PageImage(c, Padded(c.ws, col, data), StageOob(c, spare, mode, ow), mode)
  }

  /** The device programs one page; a failed program burns in something of its own. */
  function Program(c: Config, cells: seq<Page>, p: nat, bits: Page, env: Env, k: nat): (r: seq<Page>)
    requires ValidCells(c, cells) && ValidEnv(c, env) && p < |cells| && |bits| == c.ws + c.oobSize
    ensures ValidCells(c, r)
  {
    cells[p := And(cells[p], if ProgFails(env, k) then Torn(c, env, k) else bits)]
  }

  /** The tests nand_do_write_ops makes of a non-empty request, in its order. */
  function WriteChecks(c: Config, to: nat, len: nat, mode: Mode, ow: OobWrite, env: Env): Ret
  {
    if BitAnd(to, c.subpageSize - 1) != 0 || BitAnd(len, c.subpageSize - 1) != 0 then EInval
    else if (BitAnd(to, c.ws - 1) != 0 || BitAnd(len, c.ws - 1) != 0) && ow.OobWrite? then EInval
    else if env.protected then EIo
    else if ow.OobWrite? && ow.offs != 0 && ow.offs + |ow.bytes| > |Slots(c.free, c.oobSize, mode)| then EInval
    else Ok
  }

  /** A request that passes the alignment test has an even length and starts at an even column of even pages. */
  lemma ChecksEven(c: Config, to: nat, len: nat)
    requires BitAnd(to, c.subpageSize - 1) == 0 && BitAnd(len, c.subpageSize - 1) == 0
    ensures len % 2 == 0 && ColOf(c, to) % 2 == 0 && c.ws % 2 == 0
  {
    AlignedEven(to, c.subpageShift);
    AlignedEven(len, c.subpageShift);
    EvenColumn(to, c.pageShift, c.ws);
  }

  datatype WriteOut = WriteOut(cells: seq<Page>, spare: seq<byte>, done: nat, ret: Ret)

  /** A write of data at column col of page p, k programs into the call. */
  function WritePages(c: Config, env: Env, cells: seq<Page>, k: nat, p: nat, col: nat, data: seq<byte>,
                      mode: Mode, ow: OobWrite, spare: seq<byte>): (r: WriteOut)
    requires ValidEnv(c, env) && ValidCells(c, cells) && |spare| == c.oobSize
    requires col < c.ws && 0 < |data| <= Room(c.ws, |cells|, p, col)
    requires OobFits(c, mode, ow)
    ensures ValidCells(c, r.cells) && |r.spare| == c.oobSize
    ensures r.ret == (if r.done == |data| then Ok else EIo) && r.done <= |data|
    decreases |data|
  {
    var bytes := Min(c.ws - col, |data|);
    var image := TurnImage(c, col, data[..bytes], mode, ow, spare);
    var cells' := Program(c, cells, p, image.bits, env, k);
    if ProgFails(env, k) then
      WriteOut(cells', image.oob, 0, EIo)
    else if bytes == |data| then
      WriteOut(cells', image.oob, bytes, Ok)
    else
      var rest := WritePages(c, env, cells', k + 1, p + 1, 0, data[bytes..], mode, OobRest(c, mode, ow), image.oob);
      WriteOut(rest.cells, rest.spare, bytes + rest.done, rest.ret)
  }

  /** A write whose first program fails */
  lemma WriteFails(c: Config, env: Env, cells: seq<Page>, k: nat, p: nat, col: nat, data: seq<byte>, bytes: nat,
                   mode: Mode, ow: OobWrite, spare: seq<byte>, image: Image, cells': seq<Page>)
    requires ValidEnv(c, env) && ValidCells(c, cells) && |spare| == c.oobSize && OobFits(c, mode, ow)
    requires col < c.ws && 0 < |data| <= Room(c.ws, |cells|, p, col) && bytes == Min(c.ws - col, |data|)
    requires image == TurnImage(c, col, data[..bytes], mode, ow, spare)
    requires cells' == Program(c, cells, p, image.bits, env, k) && ProgFails(env, k)
    ensures WritePages(c, env, cells, k, p, col, data, mode, ow, spare) == WriteOut(cells', image.oob, 0, EIo)
  {
    var r := WritePages(c, env, cells, k, p, col, data, mode, ow, spare);
    assert r.done == 0 && r.ret == EIo;
    assert r.cells == cells';
    assert r.spare == image.oob;
  }

  /** A write whose first page is also its last */
  lemma WriteLast(c: Config, env: Env, cells: seq<Page>, k: nat, p: nat, col: nat, data: seq<byte>, bytes: nat,
                  mode: Mode, ow: OobWrite, spare: seq<byte>, image: Image, cells': seq<Page>)
    requires ValidEnv(c, env) && ValidCells(c, cells) && |spare| == c.oobSize && OobFits(c, mode, ow)
    requires col < c.ws && 0 < |data| <= Room(c.ws, |cells|, p, col) && bytes == Min(c.ws - col, |data|)
    requires image == TurnImage(c, col, data[..bytes], mode, ow, spare)
    requires cells' == Program(c, cells, p, image.bits, env, k) && !ProgFails(env, k) && bytes == |data|
    ensures WritePages(c, env, cells, k, p, col, data, mode, ow, spare) == WriteOut(cells', image.oob, bytes, Ok)
  {
    var r := WritePages(c, env, cells, k, p, col, data, mode, ow, spare);
    assert r.cells == cells' && r.spare == image.oob;
  }

  /** A write that goes on after its first page */
  lemma WriteMore(c: Config, env: Env, cells: seq<Page>, k: nat, p: nat, col: nat, data: seq<byte>, bytes: nat,
                  mode: Mode, ow: OobWrite, spare: seq<byte>, image: Image, cells': seq<Page>, data': seq<byte>,
                  ow': OobWrite)
    requires ValidEnv(c, env) && ValidCells(c, cells) && |spare| == c.oobSize && OobFits(c, mode, ow)
    requires col < c.ws && 0 < |data| <= Room(c.ws, |cells|, p, col) && bytes == Min(c.ws - col, |data|)
    requires image == TurnImage(c, col, data[..bytes], mode, ow, spare)
    requires cells' == Program(c, cells, p, image.bits, env, k)
    requires data' == data[bytes..] && ow' == OobRest(c, mode, ow)
    requires !ProgFails(env, k) && bytes < |data|
    ensures OobFits(c, mode, ow') && 0 < |data'| <= Room(c.ws, |cells'|, p + 1, 0) && bytes == c.ws - col
    ensures var rest := WritePages(c, env, cells', k + 1, p + 1, 0, data', mode, ow', image.oob);
            WritePages(c, env, cells, k, p, col, data, mode, ow, spare) ==
            WriteOut(rest.cells, rest.spare, bytes + rest.done, rest.ret)
  {
    OobRestFits(c, mode, ow);
    var r := WritePages(c, env, cells, k, p, col, data, mode, ow, spare);
    var rest := WritePages(c, env, cells', k + 1, p + 1, 0, data', mode, ow', image.oob);
    assert r.cells == rest.cells && r.spare == rest.spare;
  }

  /** The outcome of a call that has written `done` bytes and still has data to write. */
  ghost function RestOfWrites(c: Config, env: Env, cells: seq<Page>, k: nat, p: nat, col: nat, data: seq<byte>,
                              mode: Mode, ow: OobWrite, spare: seq<byte>, done: nat): WriteOut
    requires ValidEnv(c, env) && ValidCells(c, cells) && |spare| == c.oobSize
    requires col < c.ws && 0 < |data| <= Room(c.ws, |cells|, p, col)
    requires OobFits(c, mode, ow)
  {
    var rest := WritePages(c, env, cells, k, p, col, data, mode, ow, spare);
    WriteOut(rest.cells, rest.spare, done + rest.done, rest.ret)
  }

  /** A write is its first page, then the write of the rest over the cells and staging buffer that page left. */
  lemma WriteUnfold(c: Config, env: Env, cells: seq<Page>, k: nat, p: nat, col: nat, data: seq<byte>, bytes: nat,
                    mode: Mode, ow: OobWrite, spare: seq<byte>, done: nat, whole: WriteOut,
                    cells': seq<Page>, spare': seq<byte>, data': seq<byte>, ow': OobWrite)
    requires ValidEnv(c, env) && ValidCells(c, cells) && |spare| == c.oobSize && OobFits(c, mode, ow)
    requires col < c.ws && 0 < |data| <= Room(c.ws, |cells|, p, col) && bytes == Min(c.ws - col, |data|)
    requires var image := TurnImage(c, col, data[..bytes], mode, ow, spare);
             cells' == Program(c, cells, p, image.bits, env, k) && spare' == image.oob
    requires data' == data[bytes..] && ow' == OobRest(c, mode, ow)
    requires whole == RestOfWrites(c, env, cells, k, p, col, data, mode, ow, spare, done)
    ensures ProgFails(env, k) ==> whole == WriteOut(cells', spare', done, EIo)
    ensures !ProgFails(env, k) && bytes == |data| ==> whole == WriteOut(cells', spare', done + bytes, Ok)
    ensures !ProgFails(env, k) && bytes < |data| ==>
              OobFits(c, mode, ow') && 0 < |data'| <= Room(c.ws, |cells'|, p + 1, 0)
              && whole == RestOfWrites(c, env, cells', k + 1, p + 1, 0, data', mode, ow', spare', done + bytes)
  {
    var image := TurnImage(c, col, data[..bytes], mode, ow, spare);
    if ProgFails(env, k) {
      WriteFails(c, env, cells, k, p, col, data, bytes, mode, ow, spare, image, cells');
    } else if bytes == |data| {
      WriteLast(c, env, cells, k, p, col, data, bytes, mode, ow, spare, image, cells');
    } else {
      WriteMore(c, env, cells, k, p, col, data, bytes, mode, ow, spare, image, cells', data', ow');
    }
  }

  lemma RestGoesOn(c: Config, env: Env, cells: seq<Page>, k: nat, p: nat, col: nat, data: seq<byte>, bytes: nat,
                   mode: Mode, ow: OobWrite, spare: seq<byte>, done: nat, image: Image, cells': seq<Page>,
                   data': seq<byte>, ow': OobWrite, k': nat, p': nat, done': nat)
    requires ValidEnv(c, env) && ValidCells(c, cells) && |spare| == c.oobSize && OobFits(c, mode, ow)
    requires col < c.ws && |data| <= Room(c.ws, |cells|, p, col) && bytes == c.ws - col < |data| && !ProgFails(env, k)
    requires image == TurnImage(c, col, data[..bytes], mode, ow, spare)
    requires cells' == Program(c, cells, p, image.bits, env, k)
    requires data' == data[bytes..] && ow' == OobRest(c, mode, ow) && k' == k + 1 && p' == p + 1 && done' == done + bytes
    ensures OobFits(c, mode, ow') && 0 < |data'| <= Room(c.ws, |cells'|, p', 0)
    ensures RestOfWrites(c, env, cells, k, p, col, data, mode, ow, spare, done) ==
            RestOfWrites(c, env, cells', k', p', 0, data', mode, ow', image.oob, done')
  {
    WriteMore(c, env, cells, k, p, col, data, bytes, mode, ow, spare, image, cells', data', ow');
  }

  // ---------------------------------------------------------------- OOB write, bad blocks, erase

  /** The OOB bytes alone are programmed (write_oob_std); k programs into the call. */
  function ProgramOob(c: Config, env: Env, cells: seq<Page>, k: nat, p: nat, mode: Mode, offs: nat, oob: seq<byte>)
    : (r: seq<Page>)
    requires ValidEnv(c, env) && ValidCells(c, cells) && p < |cells|
    requires offs + |oob| <= |Slots(c.free, c.oobSize, mode)|
    ensures ValidCells(c, r)
  {
    Program(c, cells, p, Blank(c.ws) + FillSpare(c, Blank(c.oobSize), mode, offs, oob), env, k)
  }

  datatype CellsRet = CellsRet(cells: seq<Page>, ret: Ret)

  /** nand_do_write_oob to page p */
  function WriteOobOnly(c: Config, env: Env, cells: seq<Page>, k: nat, p: nat, mode: Mode, offs: nat, oob: seq<byte>)
    : (r: CellsRet)
    requires ValidEnv(c, env) && ValidCells(c, cells)
    ensures ValidCells(c, r.cells)
  {
    var len := |Slots(c.free, c.oobSize, mode)|;
    if offs + |oob| > len || offs >= len || p >= |cells| then CellsRet(cells, EInval)
    else if env.protected then CellsRet(cells, ERofs)
    else
      CellsRet(ProgramOob(c, env, cells, k, p, mode, offs, oob), if ProgFails(env, k) then EIo else Ok)
  }

  /** Does a page carry a bad-block mark? */
  predicate PageBad(c: Config, page: Page)
    requires |page| == c.ws + c.oobSize
  {
    var bad := page[c.ws + c.badPos];
    if c.badBits == 8 then bad != 0xFF else Hweight(bad) < c.badBits
  }

  /** The page of a block that carries its mark. */
  function MarkPage(c: Config, p: nat): nat
  {
    if c.scanLastPage then p + c.ppb - 1 else p
  }

  predicate BlockBadAt(c: Config, cells: seq<Page>, p: nat)
    requires ValidCells(c, cells) && MarkPage(c, p) < |cells|
  {
    PageBad(c, cells[MarkPage(c, p)])
  }

  /** nand_default_block_markbad from page q: both marker positions and the second page as configured. */
  function MarkPages(c: Config, env: Env, cells: seq<Page>, k: nat, q: nat, i: nat): (r: CellsRet)
    requires ValidEnv(c, env) && ValidCells(c, cells) && i < 2
    ensures ValidCells(c, r.cells)
    decreases 2 - i
  {
    var w := WriteOobOnly(c, env, cells, k, q, Place, c.badPos / 2 * 2, [0, 0]);
    var w6 := if w.ret.Ok? && c.scanByte1And6 then WriteOobOnly(c, env, w.cells, k + 1, q, Place, 4, [0, 0]) else w;
    if w6.ret.Ok? && c.scan2ndPage && i + 1 < 2 then MarkPages(c, env, w6.cells, k + 2, q + 1, i + 1) else w6
  }

  /** The page nand_block_bad looks at for an offset in page p: the way to the last page stays on the chip of p. */
  function ScanPage(c: Config, p: nat): nat {
    Times(p / c.ppc, c.ppc) + BitAnd(MarkPage(c, p), c.ppc - 1)
  }

  lemma ChipOfPage(c: Config, selected: int, p: nat, local: nat)
    requires OnPage(c, selected, p, local)
    ensures p / c.ppc == selected
  {
    TimesIsProduct(selected, c.ppc);
    DivModUnique(p, c.ppc, selected, local);
  }

  lemma PageOnChip(c: Config, p: nat)
    ensures OnPage(c, p / c.ppc, p, p % c.ppc)
  {
    TimesIsProduct(p / c.ppc, c.ppc);
    DivMod(p, c.ppc);
  }

  lemma ScanInside(c: Config, p: nat)
    requires p < Times(c.numChips, c.ppc)
    ensures ScanPage(c, p) < Times(c.numChips, c.ppc)
  {
    PageOnChip(c, p);
    SelectedInside(c, p / c.ppc, p, p % c.ppc);
    MaskAndShift(MarkPage(c, p), c.chipShift - c.pageShift);
    TimesMono(p / c.ppc + 1, c.numChips, c.ppc);
  }

  /** For the first page of a block it is the page that carries the block's mark. */
  lemma ScanAligned(c: Config, p: nat)
    requires p % c.ppb == 0
    ensures ScanPage(c, p) == MarkPage(c, p)
  {
    var chip, local := p / c.ppc, p % c.ppc;
    PageOnChip(c, p);
    BlockOnChip(c, chip, p, local);
    MaskedPage(c, chip, MarkPage(c, p), local + (MarkPage(c, p) - p));
  }

  /** nand_block_markbad at an offset in page p: a page that already reads bad is left alone. */
  function MarkBad(c: Config, env: Env, cells: seq<Page>, p: nat): (r: CellsRet)
    requires ValidEnv(c, env) && ValidCells(c, cells) && p < |cells|
    ensures ValidCells(c, r.cells)
  {
    ScanInside(c, p);
    if PageBad(c, cells[ScanPage(c, p)]) then CellsRet(cells, Ok) else MarkPages(c, env, cells, 0, MarkPage(c, p), 0)
  }

  datatype EraseOut = EraseOut(cells: seq<Page>, done: nat, ret: Ret, failPage: int)

  /** What the k-th erase command of a call leaves in the i-th page of its block */
  function PageAfterErase(c: Config, env: Env, k: nat, i: nat): (r: Page)
    requires ValidEnv(c, env)
    ensures |r| == c.ws + c.oobSize
  {
    if EraseFails(env, k) then TornErase(c, env, k, i) else Blank(c.ws + c.oobSize)
  }

  /** n pages from page p on after the k-th erase command of a call */
  function ErasePages(c: Config, env: Env, cells: seq<Page>, k: nat, p: nat, n: nat): (r: seq<Page>)
    requires ValidEnv(c, env) && ValidCells(c, cells) && p + n <= |cells|
    ensures ValidCells(c, r)
    decreases n
  {
    if n == 0 then cells else ErasePages(c, env, cells[p + n - 1 := PageAfterErase(c, env, k, n - 1)], k, p, n - 1)
  }

  lemma {:induction false} ErasePagesAt(c: Config, env: Env, cells: seq<Page>, k: nat, p: nat, n: nat, i: nat)
    requires ValidEnv(c, env) && ValidCells(c, cells) && p + n <= |cells| && i < |cells|
    ensures ErasePages(c, env, cells, k, p, n)[i] ==
            if p <= i < p + n then PageAfterErase(c, env, k, i - p) else cells[i]
    decreases n
  {
    if n > 0 {
      ErasePagesAt(c, env, cells[p + n - 1 := PageAfterErase(c, env, k, n - 1)], k, p, n - 1, i);
    }
  }

  /** The block at page p after the k-th erase command of a call, sent to it */
  function EraseResult(c: Config, env: Env, cells: seq<Page>, k: nat, p: nat): (r: seq<Page>)
    requires ValidEnv(c, env) && ValidCells(c, cells) && p + c.ppb <= |cells|
    ensures ValidCells(c, r)
  {
    ErasePages(c, env, cells, k, p, c.ppb)
  }

  lemma EraseResultAt(c: Config, env: Env, cells: seq<Page>, k: nat, p: nat, i: nat)
    requires ValidEnv(c, env) && ValidCells(c, cells) && p + c.ppb <= |cells| && i < |cells|
    ensures p <= i < p + c.ppb ==> EraseResult(c, env, cells, k, p)[i] == PageAfterErase(c, env, k, i - p)
    ensures !(p <= i < p + c.ppb) ==> EraseResult(c, env, cells, k, p)[i] == cells[i]
  {
    ErasePagesAt(c, env, cells, k, p, c.ppb, i);
  }

  /** Erase n blocks from page p; the call stops at a bad block or at the k-th erase if that one fails. */
  function EraseBlocks(c: Config, env: Env, cells: seq<Page>, k: nat, p: nat, n: nat): (r: EraseOut)
    requires ValidEnv(c, env) && ValidCells(c, cells) && p + Times(n, c.ppb) <= |cells|
    ensures ValidCells(c, r.cells) && (r.ret.Ok? || r.ret.EIo?)
    decreases n
  {
    if n == 0 then
      EraseOut(cells, 0, Ok, -1)
    else
      if BlockBadAt(c, cells, p) then EraseOut(cells, 0, EIo, -1)
      else if EraseFails(env, k) then
        EraseOut(EraseResult(c, env, cells, k, p), 0, EIo, p)
      else
        var rest := EraseBlocks(c, env, EraseResult(c, env, cells, k, p), k + 1, p + c.ppb, n - 1);
        EraseOut(rest.cells, 1 + rest.done, rest.ret, rest.failPage)
  }

  /** The outcome of a call that has erased `done` blocks and still has n to erase. */
  ghost function RestOfErase(c: Config, env: Env, cells: seq<Page>, k: nat, p: nat, n: nat, done: nat): EraseOut
    requires ValidEnv(c, env) && ValidCells(c, cells) && p + Times(n, c.ppb) <= |cells|
  {
    var rest := EraseBlocks(c, env, cells, k, p, n);
    EraseOut(rest.cells, done + rest.done, rest.ret, rest.failPage)
  }

  lemma EraseMore(c: Config, env: Env, cells: seq<Page>, k: nat, p: nat, n: nat, cells': seq<Page>, k': nat, p': nat,
                  n': nat)
    requires ValidEnv(c, env) && ValidCells(c, cells) && n > 0 && p + Times(n, c.ppb) <= |cells|
    requires p + c.ppb <= |cells| && !BlockBadAt(c, cells, p) && !EraseFails(env, k)
    requires cells' == EraseResult(c, env, cells, k, p) && k' == k + 1 && p' == p + c.ppb && n' == n - 1
    ensures p' + Times(n', c.ppb) <= |cells'|
    ensures var rest := EraseBlocks(c, env, cells', k', p', n');
            EraseBlocks(c, env, cells, k, p, n) == EraseOut(rest.cells, 1 + rest.done, rest.ret, rest.failPage)
  {
    var r, rest := EraseBlocks(c, env, cells, k, p, n), EraseBlocks(c, env, cells', k', p', n');
    assert r.done == 1 + rest.done && r.ret == rest.ret && r.failPage == rest.failPage;
    assert r.cells == rest.cells;
  }

  lemma EraseEnds(c: Config, env: Env, cells: seq<Page>, k: nat, p: nat, n: nat)
    requires ValidEnv(c, env) && ValidCells(c, cells) && n > 0 && p + Times(n, c.ppb) <= |cells|
    requires p + c.ppb <= |cells|
    ensures BlockBadAt(c, cells, p) ==> EraseBlocks(c, env, cells, k, p, n) == EraseOut(cells, 0, EIo, -1)
    ensures !BlockBadAt(c, cells, p) && EraseFails(env, k) ==>
              EraseBlocks(c, env, cells, k, p, n) == EraseOut(EraseResult(c, env, cells, k, p), 0, EIo, p)
  {
  }

  lemma EraseStops(c: Config, env: Env, cells: seq<Page>, k: nat, p: nat, n: nat, done: nat)
    requires ValidEnv(c, env) && ValidCells(c, cells) && n > 0 && p + Times(n, c.ppb) <= |cells|
    requires p + c.ppb <= |cells| && (BlockBadAt(c, cells, p) || EraseFails(env, k))
    ensures RestOfErase(c, env, cells, k, p, n, done) ==
            if BlockBadAt(c, cells, p) then EraseOut(cells, done, EIo, -1)
            else EraseOut(EraseResult(c, env, cells, k, p), done, EIo, p)
  {
  }

  /** Erasing n blocks is erasing the first, then the rest, unless the first is bad or its erase fails. */
  lemma EraseGoesOn(c: Config, env: Env, cells: seq<Page>, k: nat, p: nat, n: nat, done: nat,
                    cells': seq<Page>, k': nat, p': nat, n': nat, done': nat)
    requires ValidEnv(c, env) && ValidCells(c, cells) && n > 0 && p + Times(n, c.ppb) <= |cells|
    requires p + c.ppb <= |cells| && !BlockBadAt(c, cells, p) && !EraseFails(env, k)
    requires cells' == EraseResult(c, env, cells, k, p)
    requires k' == k + 1 && p' == p + c.ppb && n' == n - 1 && done' == done + 1
    ensures p' + Times(n', c.ppb) <= |cells|
    ensures RestOfErase(c, env, cells, k, p, n, done) == RestOfErase(c, env, cells', k', p', n', done')
  {
    EraseMore(c, env, cells, k, p, n, cells', k', p', n');
  }

  lemma NothingToErase(c: Config, env: Env, cells: seq<Page>, k: nat, p: nat, done: nat)
    requires ValidEnv(c, env) && ValidCells(c, cells) && p <= |cells|
    ensures RestOfErase(c, env, cells, k, p, 0, done) == EraseOut(cells, done, Ok, -1)
  {
  }

  /** check_offs_len: the range is block-aligned and inside the device. */
  ghost predicate EraseAccepted(c: Config, n: nat, addr: nat, len: nat) {
    && BitAnd(addr, Pow2(c.eraseShift) - 1) == 0
    && BitAnd(len, Pow2(c.eraseShift) - 1) == 0
    && addr + len <= n * c.ws
  }

  function FailAddr(c: Config, failPage: int): int {
    if failPage < 0 then -1 else failPage * c.ws
  }

  /** What nand_erase_nand does: rejected, gone wrong at a chip that is not there, write-protected, or carried out. */
  ghost predicate EraseDone(c: Config, env: Env, cells: seq<Page>, addr: nat, len: nat, cells': seq<Page>, ret: Ret,
                            failAddr: int)
    requires ValidEnv(c, env) && ValidCells(c, cells)
  {
    if !EraseAccepted(c, |cells|, addr, len) then ret.EInval? && failAddr == -1 && cells' == cells
    else if !(len > 0 || addr < |cells| * c.ws) then ret.Bug? && failAddr == -1 && cells' == cells
    else if env.protected then ret.EIo? && failAddr == -1 && cells' == cells
    else
      EraseFits(c, |cells|, addr, len);
      var e := EraseBlocks(c, env, cells, 0, PageOf(c, addr), BlockCount(c, len));
      cells' == e.cells && ret == e.ret && failAddr == FailAddr(c, e.failPage)
  }

  function BlockCount(c: Config, len: nat): nat {
    ShiftRight(len, c.eraseShift)
  }

  lemma AlignedProduct(x: nat, k: nat)
    requires BitAnd(x, Pow2(k) - 1) == 0
    ensures x == ShiftRight(x, k) * Pow2(k)
  {
    MaskAndShift(x, k);
    DivMod(x, Pow2(k));
  }

  /** A block-aligned offset is the offset of a block-aligned page. */
  lemma AlignedPage(c: Config, x: nat)
    requires BitAnd(x, Pow2(c.eraseShift) - 1) == 0
    ensures PageOf(c, x) == ShiftRight(x, c.eraseShift) * c.ppb && PageOf(c, x) * c.ws == x
    ensures PageOf(c, x) % c.ppb == 0
  {
    var b := ShiftRight(x, c.eraseShift);
    AlignedProduct(x, c.eraseShift);
    Pow2Add(c.eraseShift - c.pageShift, c.pageShift);
    ProductAssoc(b, c.ppb, c.ws);
    OffsetOfPage(c, b * c.ppb);
    ModOfSum(b, 0, c.ppb);
  }

  lemma ProductAssoc(b: nat, ppb: nat, ws: nat)
    ensures b * (ppb * ws) == b * ppb * ws
  {
  }

  lemma EraseFits(c: Config, n: nat, addr: nat, len: nat)
    requires EraseAccepted(c, n, addr, len)
    ensures PageOf(c, addr) % c.ppb == 0 && len == Times(BlockCount(c, len), Pow2(c.eraseShift))
    ensures PageOf(c, addr) + Times(BlockCount(c, len), c.ppb) <= n
    ensures PageOf(c, addr) * c.ws == addr
    ensures len > 0 ==> PageOf(c, addr) < n
  {
    AlignedPage(c, addr);
    AlignedPage(c, len);
    AlignedProduct(len, c.eraseShift);
    TimesIsProduct(BlockCount(c, len), Pow2(c.eraseShift));
    TimesIsProduct(BlockCount(c, len), c.ppb);
    PagesFit(PageOf(c, addr), PageOf(c, len), c.ws, n);
  }

  lemma PagesFit(a: nat, b: nat, ws: nat, n: nat)
    requires a * ws + b * ws <= n * ws && ws > 0
    ensures a + b <= n
  {
    assert (a + b) * ws == a * ws + b * ws;
    assert (n + 1) * ws == n * ws + ws;
    if a + b > n {
      MulMono(n + 1, a + b, ws);
    }
  }
}
