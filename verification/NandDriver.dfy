/**
 The generic NAND driver core: chip selection, the read, write, OOB-write and erase loops, and the
 bad-block marks, over the flash cells and the driver's own buffers.
 */
module NandDriver {
  import opened Bytes
  import opened Geometry
  import opened OobLayout
  import opened NandSpec
  import opened PageCache

  lemma CrossChip(c: Config, selected: int, p: nat, local: nat)
    requires OnPage(c, selected, p, local)
    ensures var next := BitAnd(p + 1, c.ppc - 1);
            OnPage(c, if next == 0 then selected + 1 else selected, p + 1, next)
  {
    MaskedPage(c, selected, p, local);
    NextMasked(p, c.chipShift - c.pageShift);
  }

  /** The shifts of an offset inside n pages select the chip that holds its page. */
  lemma OffsetParts(c: Config, ofs: nat, p: nat, chip: nat)
    requires p < Times(c.numChips, c.ppc)
    requires p == ShiftRight(ofs, c.pageShift) && chip == ShiftRight(ofs, c.chipShift)
    ensures OnPage(c, chip, p, BitAnd(p, c.ppc - 1)) && chip < c.numChips
  {
    PageParts(ofs, c.pageShift, c.chipShift, p, c.ppc);
    TimesIsProduct(chip, c.ppc);
    SelectedInside(c, chip, p, BitAnd(p, c.ppc - 1));
  }

  /** Stepping by a block stays on the chip, or reaches the start of the next. */
  lemma CrossBlock(c: Config, selected: int, p: nat, local: nat)
    requires OnPage(c, selected, p, local) && p % c.ppb == 0
    ensures (p + c.ppb) % c.ppb == 0
    ensures var next := BitAnd(p + c.ppb, c.ppc - 1);
            OnPage(c, if next == 0 then selected + 1 else selected, p + c.ppb, next)
  {
    BlockOnChip(c, selected, p, local);
    ModOfSum(1, p, c.ppb);
    if local + c.ppb == c.ppc {
      MaskedPage(c, selected + 1, p + c.ppb, 0);
    } else {
      MaskedPage(c, selected, p + c.ppb, local + c.ppb);
    }
  }

  /** An offset up to the end of the device selects a chip there is, exactly if it is not the end. */
  lemma ChipExists(c: Config, n: nat, ofs: nat)
    requires n == Times(c.numChips, c.ppc) && ofs <= n * c.ws
    ensures ShiftRight(ofs, c.chipShift) < c.numChips <==> ofs < n * c.ws
    ensures ofs < n * c.ws <==> PageOf(c, ofs) < n
  {
    OutOfDevice(c, n, ofs);
    if ofs < n * c.ws {
      OffsetParts(c, ofs, PageOf(c, ofs), ShiftRight(ofs, c.chipShift));
    } else {
      EndSelectsNoChip(c, ofs);
    }
  }

  /** The offset just past the device, which nand_block_isbad and check_offs_len let through, selects a chip after the last. */
  lemma EndSelectsNoChip(c: Config, size: nat)
    requires size == Times(c.numChips, c.ppc) * c.ws
    ensures ShiftRight(size, c.chipShift) == c.numChips
  {
    TimesIsProduct(c.numChips, c.ppc);
    Pow2Add(c.chipShift - c.pageShift, c.pageShift);
    ProductAssoc(c.numChips, c.ppc, c.ws);
    MaskAndShift(size, c.chipShift);
    DivModUnique(size, Pow2(c.chipShift), c.numChips, 0);
  }

  /** A remaining length is zero, or one block, exactly when no block, or one, remains. */
  lemma BlocksLeft(n: nat, size: nat)
    requires size > 0
    ensures Times(n, size) == 0 <==> n == 0
    ensures Times(n, size) == size <==> n == 1
  {
    TimesMono(if n > 2 then 2 else n, n, size);
  }

  /** Page p starts a block of ppb pages. */
  ghost predicate BlockStart(ppb: nat, p: nat)
    requires ppb > 0
  {
    p == 0 || (p >= ppb && BlockStart(ppb, p - ppb))
  }

  lemma {:induction false} BlockStartIs(ppb: nat, p: nat)
    requires ppb > 0
    ensures BlockStart(ppb, p) <==> p % ppb == 0
  {
    if p >= ppb {
      BlockStartIs(ppb, p - ppb);
      ModOfSum(1, p - ppb, ppb);
    }
  }

  lemma BlocksFit(ppb: nat, p: nat, n: nat, size: nat)
    requires n > 0 && p + Times(n, ppb) <= size && ppb > 0
    ensures p + ppb + Times(n - 1, ppb) <= size && (n > 1 ==> p + ppb < size)
  {
    assert n > 1 ==> Times(n - 1, ppb) >= ppb;
  }

  lemma ChecksAre(c: Config, to: nat, len: nat, mode: Mode, ow: OobWrite, env: Env)
    ensures WriteChecks(c, to, len, mode, ow, env) ==
            if !RequestAligned(c, to, len, ow) then EInval else if env.protected then EIo
            else if OobTooLong(c, mode, ow) then EInval else Ok
    ensures RequestAligned(c, to, len, ow) ==> BitAnd(to, c.subpageSize - 1) == 0 && BitAnd(len, c.subpageSize - 1) == 0
  {
    MaskIsMod(c, to);
    MaskIsMod(c, len);
  }

  /** An aligned request is even, and so is its start in its page. */
  lemma AlignedIsEven(c: Config, n: nat, to: nat, len: nat, ow: OobWrite)
    requires RequestAligned(c, to, len, ow) && InDevice(c, n, to, len) && len > 0
    ensures len % 2 == 0 && ColOf(c, to) % 2 == 0 && c.ws % 2 == 0
    ensures ColOf(c, to) < c.ws && PageOf(c, to) < n && len <= Room(c.ws, n, PageOf(c, to), ColOf(c, to))
  {
    MaskIsMod(c, to);
    MaskIsMod(c, len);
    ChecksEven(c, to, len);
    RequestFits(c, n, to, len);
  }

  /** The rest of a write after its first page */
  lemma RestOfBuffer(ws: nat, n: nat, p: nat, col: nat, len: nat, bytes: nat)
    requires col < ws && bytes == ws - col < len <= Room(ws, n, p, col) && ws % 2 == 0 && col % 2 == 0 && len % 2 == 0
    ensures (len - bytes) % 2 == 0 && p + 1 < n && 0 < len - bytes <= Room(ws, n, p + 1, 0)
  {
    assert Room(ws, n, p + 1, 0) > 0;
  }

  /** The masks of the alignment tests take remainders. */
  lemma MaskIsMod(c: Config, x: nat)
    ensures BitAnd(x, c.subpageSize - 1) == x % c.subpageSize && BitAnd(x, c.ws - 1) == x % c.ws
  {
    MaskAndShift(x, c.subpageShift);
    MaskAndShift(x, c.pageShift);
  }

  class NandChip {
    const c: Config
    const buffers: array<byte>     // databuf, then the OOB staging buffer
    var cells: seq<Page>           // the flash, chip after chip
    var selected: int              // the chip whose enable line is asserted, -1 for none
    var pagebuf: int
    var failed: nat                // ecc_stats
    var corrected: nat

    /** The shape of the flash and the buffers */
    ghost predicate Shaped()
      reads this`cells, this`pagebuf
    {
      && ValidCells(c, cells)
      && buffers.Length == c.ws + c.oobSize
      && -1 <= pagebuf < |cells|
    }

    ghost predicate Valid()
      reads this`cells, this`pagebuf, this`selected
    {
      Shaped() && -1 <= selected < c.numChips
    }

    ghost function CacheOf(): (r: Cache)
      requires Shaped()
      reads this`cells, this`pagebuf, buffers
      ensures ValidCache(c, cells, r)
    {
      Cache(pagebuf, buffers[..c.ws])
    }

    ghost predicate CacheCoherent()
      requires Shaped()
      reads this`cells, this`pagebuf, buffers
    {
      Coherent(c, cells, CacheOf())
    }

    /** The end of nand_scan_tail: nothing selected, nothing cached. */
    constructor (c: Config, cells: seq<Page>)
      requires ValidCells(c, cells)
      ensures this.c == c && this.cells == cells && fresh(buffers)
      ensures Valid() && CacheCoherent() && failed == 0 && corrected == 0
    {
      this.c, this.cells := c, cells;
      buffers := new byte[c.ws + c.oobSize];
      selected, pagebuf, failed, corrected := -1, -1, 0, 0;
    }

    // ---------------------------------------------------------------- addressing

    method SelectChip(chipnr: int)
      requires -1 <= chipnr < c.numChips
      modifies this`selected
      ensures selected == chipnr
    {
      selected := chipnr;
    }

    /** The chip, the page and the column of an offset; the chip is selected. */
    method Locate(ofs: nat) returns (realpage: nat, page: nat, col: nat)
      requires Valid() && PageOf(c, ofs) < |cells|
      modifies this`selected
      ensures Valid() && OnPage(c, selected, realpage, page)
      ensures realpage == PageOf(c, ofs) && col == ColOf(c, ofs)
    {
      var chipnr := ShiftRight(ofs, c.chipShift);
      realpage := ShiftRight(ofs, c.pageShift);
      page := BitAnd(realpage, c.ppc - 1);
      col := BitAnd(ofs, c.ws - 1);
      OffsetParts(c, ofs, realpage, chipnr);
      SelectChip(chipnr);
    }

    /** The end of a loop turn: to the next page, crossing to the next chip at a chip's end. */
    method Advance(realpage: nat, page: nat) returns (nextpage: nat)
      requires Valid() && OnPage(c, selected, realpage, page)
      requires realpage + 1 < |cells|
      modifies this`selected
      ensures Valid() && OnPage(c, selected, realpage + 1, nextpage)
    {
      nextpage := BitAnd(realpage + 1, c.ppc - 1);
      CrossChip(c, selected, realpage, page);
      if nextpage == 0 {
        var chipnr := selected + 1;
        SelectedInside(c, chipnr, realpage + 1, nextpage);
        SelectChip(-1);
        SelectChip(chipnr);
      }
    }

    // ---------------------------------------------------------------- read

    /** memcpy to databuf + at */
    method StoreData(at: nat, src: seq<byte>)
      requires Valid() && at + |src| <= c.ws
      modifies buffers
      ensures buffers[..c.ws] == old(buffers[..c.ws])[..at] + src + old(buffers[..c.ws])[at + |src|..]
      ensures buffers[c.ws..] == old(buffers[c.ws..])
    {
      CopyInto(buffers, at, src);
      assert buffers[..c.ws] == buffers[..][..c.ws];
      assert buffers[c.ws..] == buffers[..][c.ws..];
    }

    /** The whole OOB staging buffer replaced */
    method StoreOob(src: seq<byte>)
      requires Valid() && |src| == c.oobSize
      modifies buffers
      ensures buffers[..c.ws] == old(buffers[..c.ws]) && buffers[c.ws..] == src
    {
      CopyInto(buffers, c.ws, src);
      assert buffers[..c.ws] == buffers[..][..c.ws];
      assert buffers[c.ws..] == buffers[..][c.ws..];
    }

    /** ecc.read_page / read_page_raw into the page buffer or into the client's buffer. */
    method ReadWhole(page: nat, mode: Mode, aligned: bool) returns (whole: seq<byte>)
      requires Valid() && 0 <= selected && Times(selected, c.ppc) + page < |cells|
      modifies this`failed, this`corrected, buffers
      ensures Valid()
      ensures var r := WholeRead(c, cells[Times(selected, c.ppc) + page], mode);
              whole == r.data && buffers[c.ws..] == r.oob
              && failed == old(failed) + r.failed && corrected == old(corrected) + r.corrected
      ensures buffers[..c.ws] == if aligned then old(buffers[..c.ws]) else whole
    {
      var content := cells[Times(selected, c.ppc) + page];
      var oob := content[c.ws..];
      if mode.Raw? {
        whole := content[..c.ws];
      } else {
        var d := Decode(c, content);
        whole, oob := d.data, d.oob;
        failed, corrected := failed + d.failed, corrected + d.corrected;
      }
      if !aligned {
        StoreData(0, whole);
      }
      StoreOob(oob);
    }

    /** ecc.read_subpage into the page buffer. */
    method ReadFragment(page: nat, col: nat, bytes: nat) returns (data: seq<byte>)
      requires Valid() && c.subpageRead && 0 <= selected && Times(selected, c.ppc) + page < |cells| && col + bytes <= c.ws
      modifies this`failed, this`corrected, buffers
      ensures Valid()
      ensures var r := DecodePart(c, cells[Times(selected, c.ppc) + page], col, bytes);
              buffers[..c.ws] == old(buffers[..c.ws])[..col] + r.data + old(buffers[..c.ws])[col + bytes..]
              && data == r.data && failed == old(failed) + r.failed && corrected == old(corrected) + r.corrected
    {
      var r := DecodePart(c, cells[Times(selected, c.ppc) + page], col, bytes);
      StoreData(col, r.data);
      failed, corrected := failed + r.failed, corrected + r.corrected;
      data := buffers[..c.ws][col..col + bytes];
    }

    /** The whole page is read, and a partial one copied out of the page buffer. */
    method ReadMissed(realpage: nat, page: nat, col: nat, bytes: nat, mode: Mode, hasOob: bool, failedBefore: nat)
      returns (data: seq<byte>)
      requires Valid() && OnPage(c, selected, realpage, page) && realpage < |cells|
      requires col + bytes <= c.ws && failedBefore <= failed
      modifies this`pagebuf, this`failed, this`corrected, buffers
      ensures Valid()
      ensures var r := WholeRead(c, cells[realpage], mode);
              data == r.data[col..col + bytes] && buffers[c.ws..] == r.oob
              && failed == old(failed) + r.failed && corrected == old(corrected) + r.corrected
              && buffers[..c.ws] == (if bytes == c.ws then old(buffers[..c.ws]) else r.data)
              && pagebuf == if bytes != c.ws && !c.subpageRead && !hasOob && failed == failedBefore then realpage
                            else old(pagebuf)
    {
      var aligned := bytes == c.ws;
      var whole := ReadWhole(page, mode, aligned);
      if aligned {
        data := whole;
      } else {
        if !c.subpageRead && !hasOob && failed - failedBefore == 0 {
          pagebuf := realpage;
        }
        data := buffers[..c.ws][col..col + bytes];
      }
    }

    /** One turn of the read loop; failedBefore is the failure count when the call began. */
    method ReadTurn(realpage: nat, page: nat, col: nat, bytes: nat, mode: Mode, hasOob: bool, failedBefore: nat)
      returns (data: seq<byte>)
      requires Valid() && OnPage(c, selected, realpage, page) && realpage < |cells|
      requires col + bytes <= c.ws && failedBefore <= failed
      modifies this`pagebuf, this`failed, this`corrected, buffers
      ensures Valid()
      ensures var s := old(ReadStep(c, cells, CacheOf(), realpage, col, bytes, mode, hasOob, failed - failedBefore));
              CacheOf() == s.cache && data == s.data
              && failed == old(failed) + s.failed && corrected == old(corrected) + s.corrected
      ensures hasOob ==> buffers[c.ws..] == PageRead(c, cells[realpage], col, bytes, mode, hasOob).oob
    {
      if realpage == pagebuf && !hasOob {
        data := buffers[..c.ws][col..col + bytes];
      } else if !mode.Raw? && bytes != c.ws && c.subpageRead && !hasOob {
        data := ReadFragment(page, col, bytes);
      } else {
        data := ReadMissed(realpage, page, col, bytes, mode, hasOob, failedBefore);
      }
    }

    /** A turn with its OOB transfer */
    method ReadAndTransfer(realpage: nat, page: nat, col: nat, bytes: nat, mode: Mode, want: OobRead, failedBefore: nat)
      returns (got: seq<byte>, piece: seq<byte>)
      requires Valid() && OnPage(c, selected, realpage, page) && realpage < |cells|
      requires col + bytes <= c.ws && failedBefore <= failed && ReadFits(c, mode, want)
      modifies this`pagebuf, this`failed, this`corrected, buffers
      ensures Valid()
      ensures var s := old(ReadStep(c, cells, CacheOf(), realpage, col, bytes, mode, want.OobRead?, failed - failedBefore));
              CacheOf() == s.cache && got == s.data
              && failed == old(failed) + s.failed && corrected == old(corrected) + s.corrected
      ensures piece == TurnPiece(c, cells[realpage], col, bytes, mode, want)
    {
      got := ReadTurn(realpage, page, col, bytes, mode, want.OobRead?, failedBefore);
      piece := [];
      if want.OobRead? {
        piece := TakePiece(mode, want, PageRead(c, cells[realpage], col, bytes, mode, true).oob);
      }
    }

    /** The client's share of the OOB area that a turn has left in the staging buffer */
    method TakePiece(mode: Mode, want: OobRead, ghost oob: seq<byte>) returns (piece: seq<byte>)
      requires Valid() && want.OobRead? && ReadFits(c, mode, want) && |oob| == c.oobSize && buffers[c.ws..] == oob
      ensures piece == OobPiece(c, oob, mode, want)
    {
      assert buffers[c.ws..c.ws + c.oobSize] == buffers[c.ws..];
      piece := TransferOob(buffers, c.ws, c.oobSize, c.free, mode, want.offs, ReadTake(c, mode, want));
    }

    /** The state of the read loop at the head of a turn. */
    ghost predicate Reading(realpage: nat, page: nat, col: nat, readlen: nat, mode: Mode, want: OobRead, failed0: nat)
      reads this, buffers
    {
      && Valid() && OnPage(c, selected, realpage, page)
      && col < c.ws && realpage < |cells| && readlen <= Room(c.ws, |cells|, realpage, col)
      && ReadFits(c, mode, want) && failed0 <= failed
    }

    /** The body of the read loop. */
    method ReadPass(realpage: nat, page: nat, col: nat, readlen: nat, mode: Mode, want: OobRead, failed0: nat)
      returns (bytes: nat, got: seq<byte>, piece: seq<byte>, nextpage: nat)
      requires Reading(realpage, page, col, readlen, mode, want, failed0)
      modifies this`selected, this`pagebuf, this`failed, this`corrected, buffers
      ensures Valid() && bytes == Min(c.ws - col, readlen) && realpage < |cells|
      ensures var s := old(ReadStep(c, cells, CacheOf(), realpage, col, bytes, mode, want.OobRead?, failed - failed0));
              CacheOf() == s.cache && got == s.data
              && failed == old(failed) + s.failed && corrected == old(corrected) + s.corrected
      ensures piece == TurnPiece(c, cells[realpage], col, bytes, mode, want)
      ensures bytes < readlen ==>
                Reading(realpage + 1, nextpage, 0, readlen - bytes, mode, ReadRest(c, mode, want), failed0)
    {
      bytes := Min(c.ws - col, readlen);
      nextpage := page;
      got, piece := ReadAndTransfer(realpage, page, col, bytes, mode, want, failed0);
      if bytes < readlen {
        RestFits(c, |cells|, realpage, col, readlen, bytes, mode, want, ReadRest(c, mode, want), realpage + 1, readlen - bytes);
        nextpage := Advance(realpage, page);
      }
    }

    /** What the call has read so far */
    ghost function SoFar(data: seq<byte>, oob: seq<byte>, failed0: nat, corrected0: nat): ReadOut
      requires failed0 <= failed && corrected0 <= corrected
      reads this`failed, this`corrected
    {
      ReadOut(data, oob, failed - failed0, corrected - corrected0)
    }

    /** The whole call is what has been read, or what reading the rest from here gives. */
    ghost predicate ReadState(whole: Loaded, over: bool, realpage: nat, page: nat, col: nat, readlen: nat, mode: Mode,
                              want: OobRead, data: seq<byte>, oob: seq<byte>, failed0: nat, corrected0: nat)
      reads this, buffers
    {
      && Valid() && failed0 <= failed && corrected0 <= corrected
      && if over then whole == Loaded(CacheOf(), SoFar(data, oob, failed0, corrected0))
         else Reading(realpage, page, col, readlen, mode, want, failed0)
              && ReadRemains(c, cells, CacheOf(), realpage, col, readlen, mode, want,
                             SoFar(data, oob, failed0, corrected0), whole)
    }

    /** A turn of the read loop, with what it adds to the client's buffers. */
    method ReadOn(realpage: nat, page: nat, col: nat, readlen: nat, mode: Mode, want: OobRead, data: seq<byte>,
                  oob: seq<byte>, failed0: nat, ghost corrected0: nat, ghost whole: Loaded)
      returns (left: nat, data': seq<byte>, oob': seq<byte>, want': OobRead, next: nat, nextpage: nat)
      requires ReadState(whole, false, realpage, page, col, readlen, mode, want, data, oob, failed0, corrected0)
      modifies this`selected, this`pagebuf, this`failed, this`corrected, buffers
      ensures left == 0 || left < readlen
      ensures ReadState(whole, left == 0, next, nextpage, 0, left, mode, want', data', oob', failed0, corrected0)
    {
      ghost var cache, acc := CacheOf(), SoFar(data, oob, failed0, corrected0);
      var bytes, got, piece;
      bytes, got, piece, nextpage := ReadPass(realpage, page, col, readlen, mode, want, failed0);
      data', oob', want', left, next := data + got, oob + piece, ReadRest(c, mode, want), readlen - bytes, realpage + 1;
      ghost var s := ReadStep(c, cells, cache, realpage, col, bytes, mode, want.OobRead?, acc.failed);
      ghost var acc' := SoFar(data', oob', failed0, corrected0);
      assert acc' == Extend(acc, s, piece);
      ReadTurned(c, cells, cache, realpage, col, readlen, bytes, mode, want, acc, s, acc', want', next, left, whole);
    }

    /** The loop of nand_do_read_ops: it takes a turn before it looks at what is left. */
    method ReadLoop(page0: nat, local0: nat, col0: nat, len: nat, mode: Mode, oq: OobRead, ghost whole: Loaded)
      returns (data: seq<byte>, oob: seq<byte>)
      requires ReadState(whole, false, page0, local0, col0, len, mode, oq, [], [], failed, corrected)
      modifies this`selected, this`pagebuf, this`failed, this`corrected, buffers
      ensures Valid() && old(failed) <= failed && old(corrected) <= corrected
      ensures Loaded(CacheOf(), ReadOut(data, oob, failed - old(failed), corrected - old(corrected))) == whole
    {
      var failed0 := failed;
      ghost var corrected0 := corrected;
      var realpage, page, col, readlen, want, over := page0, local0, col0, len, oq, false;
      data, oob := [], [];
      while !over
        invariant 0 <= readlen && 0 <= col && 0 <= realpage
        invariant ReadState(whole, over, realpage, page, col, readlen, mode, want, data, oob, failed0, corrected0)
        decreases !over, readlen
      {
        readlen, data, oob, want, realpage, page :=
          ReadOn(realpage, page, col, readlen, mode, want, data, oob, failed0, corrected0, whole);
        over, col := readlen == 0, 0;
      }
    }

    /**
     nand_do_read_ops: the read loop over the cache as it is found. A request of no bytes reads its page all the same,
     selects a chip that is not there at the end of the device, and runs away in read_subpage at column 0.
     */
    method DoReadOps(from: nat, len: nat, mode: Mode, oq: OobRead) returns (ret: Ret, data: seq<byte>, oob: seq<byte>)
      requires Valid() && InDevice(c, |cells|, from, len) && ReadFits(c, mode, oq)
      modifies this`selected, this`pagebuf, this`failed, this`corrected, buffers
      ensures Valid()
      ensures ReadDone(c, cells, old(CacheOf()), from, len, mode, oq, CacheOf(), ret, data, oob, failed - old(failed),
                       corrected - old(corrected))
    {
      data, oob := [], [];
      ChipExists(c, |cells|, from);
      if ShiftRight(from, c.chipShift) >= c.numChips {
        return Bug, data, oob;
      }
      RequestFits(c, |cells|, from, len);
      var realpage, page, col := Locate(from);
      if Overruns(c, pagebuf, realpage, col, len, mode, oq) {
        return Overrun, data, oob;
      }
      ret, data, oob := ReadFrom(realpage, page, col, len, mode, oq);
    }

    /** The loop, and the return code from what it adds to the ECC statistics */
    method ReadFrom(realpage: nat, page: nat, col: nat, len: nat, mode: Mode, oq: OobRead)
      returns (ret: Ret, data: seq<byte>, oob: seq<byte>)
      requires Reading(realpage, page, col, len, mode, oq, failed)
      modifies this`selected, this`pagebuf, this`failed, this`corrected, buffers
      ensures Valid() && old(failed) <= failed && old(corrected) <= corrected
      ensures CachedRead(c, cells, old(CacheOf()), realpage, col, len, mode, oq, NOTHING) ==
              Loaded(CacheOf(), ReadOut(data, oob, failed - old(failed), corrected - old(corrected)))
      ensures ret == ReadRet(failed - old(failed), corrected - old(corrected))
    {
      var failedBefore, correctedBefore := failed, corrected;
      data, oob := ReadLoop(realpage, page, col, len, mode, oq,
                            CachedRead(c, cells, CacheOf(), realpage, col, len, mode, oq, NOTHING));
      ret := if failed - failedBefore > 0 then EBadMsg else if corrected - correctedBefore > 0 then EUClean else Ok;
    }

    // ---------------------------------------------------------------- write

    /** nand_write_page: the page function fills the staging buffer, then the device programs the page. */
    method WritePage(wbuf: seq<byte>, page: nat, mode: Mode, env: Env, k: nat) returns (fail: bool)
      requires Valid() && ValidEnv(c, env) && 0 <= selected && Times(selected, c.ppc) + page < |cells| && |wbuf| == c.ws
      modifies this`cells, buffers
      ensures Valid() && fail == ProgFails(env, k)
      ensures buffers[..c.ws] == old(buffers[..c.ws])
      ensures var image := PageImage(c, wbuf, old(buffers[c.ws..]), mode);
              cells == Program(c, old(cells), Times(selected, c.ppc) + page, image.bits, env, k)
              && buffers[c.ws..] == image.oob
    {
      var addr := Times(selected, c.ppc) + page;
      var spare := buffers[c.ws..];
      var bits := wbuf + spare;
      if !mode.Raw? {
        var image := Encode(c, wbuf, spare);
        StoreOob(image.oob);
        bits := image.bits;
      }
      fail := ProgFails(env, k);
      cells := cells[addr := And(cells[addr], if fail then Torn(c, env, k) else bits)];
    }

    /** A partial page built in the page buffer, which then caches nothing. */
    method PadPage(col: nat, part: seq<byte>)
      requires Valid() && col + |part| <= c.ws
      modifies this`pagebuf, buffers
      ensures Valid() && pagebuf == -1 && buffers[c.ws..] == old(buffers[c.ws..])
      ensures buffers[..c.ws] == Padded(c.ws, col, part)
    {
      pagebuf := -1;
      StoreData(0, Blank(c.ws));
      assert buffers[..c.ws] == Blank(c.ws);
      StoreData(col, part);
      PaddedCopy(c.ws, col, part);
    }

    /** The bytes of one page of a write: the client's own, or a padded copy in the page buffer. */
    method PageBytes(col: nat, buf: seq<byte>) returns (bytes: nat, wbuf: seq<byte>)
      requires Valid() && col < c.ws && buf != [] && |buf| % 2 == 0 && c.ws % 2 == 0
      modifies this`pagebuf, buffers
      ensures Valid() && buffers[c.ws..] == old(buffers[c.ws..])
      ensures bytes == Min(c.ws - col, |buf|) && wbuf == Padded(c.ws, col, buf[..bytes])
      ensures CacheOf() == TurnCache(c.ws, old(CacheOf()), col, buf[..bytes])
    {
      if col != 0 || |buf| < c.ws - 1 {
        bytes := Min(c.ws - col, |buf|);
        PadPage(col, buf[..bytes]);
        wbuf := buffers[..c.ws];
      } else {
        bytes := c.ws;
        wbuf := buf[..c.ws];
        PaddedCopy(c.ws, col, wbuf);
      }
    }

    /** The client's OOB bytes for this page put into the staging buffer. */
    method Stage(mode: Mode, ow: OobWrite)
      requires Valid() && OobFits(c, mode, ow)
      modifies buffers
      ensures buffers[..c.ws] == old(buffers[..c.ws])
      ensures buffers[c.ws..] == StageOob(c, old(buffers[c.ws..]), mode, ow)
    {
      if ow.OobWrite? {
        var bytes := ow.bytes[..OobTake(c, mode, ow)];
        ghost var spare := buffers[c.ws..];
        FillOob(buffers, c.ws, c.free, mode, ow.offs, bytes);
        assert buffers[c.ws..] == FillSpare(c, spare, mode, ow.offs, bytes);
      }
    }

    /** The state of the write loop at the head of a turn. */
    ghost predicate Writing(realpage: nat, page: nat, col: nat, buf: seq<byte>, mode: Mode, ow: OobWrite)
      reads this`cells, this`pagebuf, this`selected
    {
      && Valid() && OnPage(c, selected, realpage, page)
      && col < c.ws && 0 < |buf| <= Room(c.ws, |cells|, realpage, col)
      && Even(col, |buf|) && OobFits(c, mode, ow)
    }

    /** Column, length and page size are even, as the alignment test has seen to. */
    predicate Even(col: nat, len: nat) {
      len % 2 == 0 && col % 2 == 0 && c.ws % 2 == 0
    }

    /** One turn of the write loop. */
    method WriteTurn(realpage: nat, page: nat, col: nat, buf: seq<byte>, mode: Mode, ow: OobWrite, env: Env, k: nat)
      returns (bytes: nat, fail: bool)
      requires Writing(realpage, page, col, buf, mode, ow) && ValidEnv(c, env)
      modifies this`cells, this`pagebuf, buffers
      ensures Valid() && bytes == Min(c.ws - col, |buf|) && fail == ProgFails(env, k)
      ensures TurnDone(c, env, old(cells), old(CacheOf()), k, realpage, col, buf, bytes, mode, ow, old(buffers[c.ws..]),
                       cells, CacheOf(), buffers[c.ws..])
    {
      var wbuf;
      bytes, wbuf := PageBytes(col, buf);
      Stage(mode, ow);
      fail := WritePage(wbuf, page, mode, env, k);
    }

    /** The body of the write loop. */
    method WritePass(realpage: nat, page: nat, col: nat, buf: seq<byte>, mode: Mode, ow: OobWrite, env: Env, k: nat)
      returns (bytes: nat, fail: bool, next: nat, nextpage: nat, buf': seq<byte>, ow': OobWrite)
      requires Writing(realpage, page, col, buf, mode, ow) && ValidEnv(c, env)
      modifies this`cells, this`pagebuf, this`selected, buffers
      ensures Valid() && bytes == Min(c.ws - col, |buf|) && fail == ProgFails(env, k)
      ensures next == realpage + 1 && buf' == buf[bytes..] && ow' == OobRest(c, mode, ow)
      ensures TurnDone(c, env, old(cells), old(CacheOf()), k, realpage, col, buf, bytes, mode, ow, old(buffers[c.ws..]),
                       cells, CacheOf(), buffers[c.ws..])
      ensures !fail && buf' != [] ==> OnPage(c, selected, next, nextpage) && Even(0, |buf'|)
    {
      bytes, fail := WriteTurn(realpage, page, col, buf, mode, ow, env, k);
      next, nextpage, buf', ow' := realpage + 1, page, buf[bytes..], OobRest(c, mode, ow);
      if !fail && buf' != [] {
        RestOfBuffer(c.ws, |cells|, realpage, col, |buf|, bytes);
        OobRestFits(c, mode, ow);
        nextpage := Advance(realpage, page);
      }
    }

    /** The call's outcome is known, or the bytes in buf are still to be written, `done` bytes into the call. */
    ghost predicate WriteState(whole: Wrote, over: bool, ret: Ret, done: nat, env: Env, k: nat, realpage: nat,
                               page: nat, col: nat, buf: seq<byte>, mode: Mode, ow: OobWrite)
      reads this, buffers
    {
      && Valid() && ValidEnv(c, env)
      && if over then WriteOver(whole, cells, CacheOf(), buffers[c.ws..], done, ret)
         else OnPage(c, selected, realpage, page) && Even(col, |buf|)
              && WriteRemains(c, env, cells, CacheOf(), k, realpage, col, buf, mode, ow, buffers[c.ws..], done, whole)
    }

    /** A turn of the write loop, with the exits it takes. */
    method WriteStep(realpage: nat, page: nat, col: nat, buf: seq<byte>, mode: Mode, ow: OobWrite, env: Env, k: nat,
                     ghost whole: Wrote, ghost done: nat)
      returns (over: bool, ret: Ret, bytes: nat, next: nat, nextpage: nat, buf': seq<byte>, ow': OobWrite, k': nat,
               ghost done': nat)
      requires WriteState(whole, false, Ok, done, env, k, realpage, page, col, buf, mode, ow)
      modifies this`cells, this`pagebuf, this`selected, buffers
      ensures bytes <= |buf| && done' == done + bytes && (!over ==> 0 < bytes && buf' == buf[bytes..])
      ensures WriteState(whole, over, ret, done', env, k', next, nextpage, 0, buf', mode, ow')
    {
      ghost var cells0, cache0, spare0 := cells, CacheOf(), buffers[c.ws..];
      var fail;
      bytes, fail, next, nextpage, buf', ow' := WritePass(realpage, page, col, buf, mode, ow, env, k);
      ghost var cache1, spare1 := CacheOf(), buffers[c.ws..];
      k', over, ret := k + 1, true, Ok;
      WriteTurned(c, env, cells0, cache0, k, realpage, col, buf, bytes, mode, ow, spare0, done, whole, cells, cache1,
                  spare1, buf', ow', k', next);
      if fail {
        ret, bytes := EIo, 0;
      } else if bytes < |buf| {
        over := false;
      }
      done' := done + bytes;
    }

    /** The loop of nand_do_write_ops */
    method WriteLoop(page0: nat, local0: nat, col0: nat, data: seq<byte>, mode: Mode, ow: OobWrite, env: Env,
                     ghost whole: Wrote)
      returns (writelen: nat, ret: Ret)
      requires WriteState(whole, false, Ok, 0, env, 0, page0, local0, col0, data, mode, ow)
      modifies this`cells, this`pagebuf, this`selected, buffers
      ensures Valid() && writelen <= |data|
      ensures WriteOver(whole, cells, CacheOf(), buffers[c.ws..], |data| - writelen, ret)
    {
      var realpage, page, col, buf, want, k := page0, local0, col0, data, ow, 0;
      ghost var done := 0;
      var over := false;
      writelen, ret := |data|, Ok;
      while !over
        invariant writelen <= |data| && done == |data| - writelen && (!over ==> writelen == |buf|)
        invariant 0 <= k && 0 <= realpage && 0 <= col
        invariant WriteState(whole, over, ret, done, env, k, realpage, page, col, buf, mode, want)
        decreases !over, |buf|
      {
        var bytes;
        over, ret, bytes, realpage, page, buf, want, k, done :=
          WriteStep(realpage, page, col, buf, mode, want, env, k, whole, done);
        writelen, col := writelen - bytes, 0;
      }
    }

    /** The cache test at the head of a write. */
    method Invalidate(to: nat, len: nat)
      requires Valid()
      modifies this`pagebuf
      ensures Valid() && pagebuf == BufAfterTest(c, old(pagebuf), to, len)
    {
      var start := pagebuf * c.ws;
      if InvalidationGuard(start, to, len) {
        pagebuf := -1;
      }
    }

    /** The tests of nand_do_write_ops on the request itself */
    method WriteTests(to: nat, len: nat, ow: OobWrite) returns (ok: bool)
      requires Valid()
      ensures ok <==> RequestAligned(c, to, len, ow)
    {
      MaskIsMod(c, to);
      MaskIsMod(c, len);
      if BitAnd(to, c.subpageSize - 1) != 0 || BitAnd(len, c.subpageSize - 1) != 0 {
        return false;
      }
      var column := BitAnd(to, c.ws - 1);
      var subpage := column != 0 || BitAnd(len, c.ws - 1) != 0;
      ok := !(subpage && ow.OobWrite?);
    }

    /** The head of nand_do_write_ops: the chip, the cache test, the staging buffer */
    method WriteHead(to: nat, len: nat, ow: OobWrite) returns (realpage: nat, page: nat, column: nat)
      requires Valid() && InDevice(c, |cells|, to, len) && len > 0
      modifies this`selected, this`pagebuf, buffers
      ensures Valid() && realpage == PageOf(c, to) && column == ColOf(c, to) < c.ws && OnPage(c, selected, realpage, page)
      ensures CacheOf() == old(CacheOf()).(pagebuf := BufAfterTest(c, old(pagebuf), to, len))
      ensures buffers[c.ws..] == if ow.NoOob? then Blank(c.oobSize) else old(buffers[c.ws..])
    {
      RequestFits(c, |cells|, to, len);
      realpage, page, column := Locate(to);
      Invalidate(to, len);
      if ow.NoOob? {
        StoreOob(Blank(c.oobSize));
      }
    }

    /** nand_do_write_ops */
    method DoWriteOps(to: nat, data: seq<byte>, mode: Mode, ow: OobWrite, env: Env) returns (ret: Ret, retlen: nat)
      requires Valid() && ValidEnv(c, env) && InDevice(c, |cells|, to, |data|)
      modifies this`cells, this`selected, this`pagebuf, buffers
      ensures Valid()
      ensures WriteDone(c, env, old(cells), old(CacheOf()), old(buffers[c.ws..]), to, data, mode, ow,
                        cells, CacheOf(), buffers[c.ws..], ret, retlen)
    {
      if data == [] {
        return Ok, 0;
      }
      var ok := WriteTests(to, |data|, ow);
      if !ok {
        return EInval, 0;
      }
      if env.protected {
        return EIo, 0;
      }
      AlignedIsEven(c, |cells|, to, |data|, ow);
      var realpage, page, column := WriteHead(to, |data|, ow);
      if ow.OobWrite? && ow.offs != 0 && ow.offs + |ow.bytes| > |Slots(c.free, c.oobSize, mode)| {
        return EInval, 0;
      }
      var writelen;
      writelen, ret := WriteLoop(realpage, page, column, data, mode, ow, env,
                                 CachedWrite(c, env, cells, CacheOf(), 0, realpage, column, data, mode, ow, buffers[c.ws..], 0));
      retlen := |data| - writelen;
    }

    // ---------------------------------------------------------------- OOB write

    /** write_oob_std: the staging buffer alone is programmed. */
    method ProgramSpare(page: nat, env: Env, k: nat) returns (fail: bool)
      requires Valid() && ValidEnv(c, env) && 0 <= selected && Times(selected, c.ppc) + page < |cells|
      modifies this`cells
      ensures Valid() && fail == ProgFails(env, k)
      ensures cells == Program(c, old(cells), Times(selected, c.ppc) + page, Blank(c.ws) + buffers[c.ws..], env, k)
    {
      var addr := Times(selected, c.ppc) + page;
      fail := ProgFails(env, k);
      cells := cells[addr := And(cells[addr], if fail then Torn(c, env, k) else Blank(c.ws) + buffers[c.ws..])];
    }

    /** The tests of nand_do_write_oob; the last one never decides once the others have passed. */
    method OobTests(to: nat, mode: Mode, offs: nat, oob: seq<byte>) returns (ok: bool)
      requires Valid()
      ensures var len := |Slots(c.free, c.oobSize, mode)|;
              ok <==> offs + |oob| <= len && offs < len && PageOf(c, to) < |cells|
    {
      var len := |Slots(c.free, c.oobSize, mode)|;
      OutOfDevice(c, |cells|, to);
      if offs + |oob| > len || offs >= len || to >= |cells| * c.ws {
        return false;
      }
      MulMono(1, |cells| - PageOf(c, to), len);
      ok := !(offs + |oob| > (|cells| - PageOf(c, to)) * len);
    }

    /** The staged bytes of an OOB write sent to a page. */
    method BurnOob(page: nat, mode: Mode, offs: nat, oob: seq<byte>, env: Env, k: nat) returns (fail: bool)
      requires Valid() && ValidEnv(c, env) && 0 <= selected && Times(selected, c.ppc) + page < |cells|
      requires offs + |oob| <= |Slots(c.free, c.oobSize, mode)|
      modifies this`cells, buffers
      ensures Valid() && fail == ProgFails(env, k) && buffers[..c.ws] == old(buffers[..c.ws])
      ensures buffers[c.ws..] == Blank(c.oobSize)
      ensures cells == ProgramOob(c, env, old(cells), k, Times(selected, c.ppc) + page, mode, offs, oob)
    {
      StoreOob(Blank(c.oobSize));
      FillOob(buffers, c.ws, c.free, mode, offs, oob);
      fail := ProgramSpare(page, env, k);
      StoreOob(Blank(c.oobSize));
    }

    /** nand_do_write_oob, as the k-th program of its caller */
    method DoWriteOob(to: nat, mode: Mode, offs: nat, oob: seq<byte>, env: Env, k: nat) returns (ret: Ret)
      requires Valid() && ValidEnv(c, env)
      modifies this`cells, this`selected, this`pagebuf, buffers
      ensures Valid()
      ensures old(CacheCoherent()) ==> CacheCoherent()
      ensures CellsRet(cells, ret) == WriteOobOnly(c, env, old(cells), k, PageOf(c, to), mode, offs, oob)
      ensures pagebuf == BufAfterOob(c, env, |cells|, old(pagebuf), PageOf(c, to), mode, offs, oob)
      ensures buffers[c.ws..] == StagedAfterOob(c, env, |cells|, old(buffers[c.ws..]), PageOf(c, to), mode, offs, oob)
    {
      var ok := OobTests(to, mode, offs, oob);
      if !ok {
        return EInval;
      }
      ghost var cache0, cells0 := CacheOf(), cells;
      var realpage, page, _ := Locate(to);
      if env.protected {
        return ERofs;
      }
      if realpage == pagebuf {
        pagebuf := -1;
      }
      var fail := BurnOob(page, mode, offs, oob, env, k);
      ret := if fail then EIo else Ok;
      if old(CacheCoherent()) && pagebuf != -1 {
        OtherPageCoherent(c, cells0, cells, cache0);
      }
    }

    // ---------------------------------------------------------------- bad blocks

    /** nand_block_bad for an offset in page p of the selected chip */
    method BlockBad(p: nat, ghost local: nat) returns (bad: bool)
      requires Valid() && OnPage(c, selected, p, local) && p < |cells|
      ensures ScanPage(c, p) < |cells| && bad == PageBad(c, cells[ScanPage(c, p)])
    {
      var q := if c.scanLastPage then p + c.ppb - 1 else p;
      ChipOfPage(c, selected, p, local);
      ScanInside(c, p);
      var at := Times(selected, c.ppc) + BitAnd(q, c.ppc - 1);
      assert at == ScanPage(c, p);
      var mark := cells[at][c.ws + c.badPos];
      bad := if c.badBits == 8 then mark != 0xFF else Hweight(mark) < c.badBits;
    }

    /** Both marker positions of one page */
    method MarkOnePage(q: nat, env: Env, k: nat) returns (ret: Ret)
      requires Valid() && ValidEnv(c, env)
      modifies this`cells, this`selected, this`pagebuf, buffers
      ensures Valid()
      ensures old(CacheCoherent()) ==> CacheCoherent()
      ensures Marked(cells, ret, pagebuf, buffers[c.ws..]) ==
              MarkOne(c, env, Marked(old(cells), Ok, old(pagebuf), old(buffers[c.ws..])), k, q)
    {
      OffsetOfPage(c, q);
      ret := DoWriteOob(q * c.ws, Place, c.badPos / 2 * 2, [0, 0], env, k);
      if ret.Ok? && c.scanByte1And6 {
        ret := DoWriteOob(q * c.ws, Place, 4, [0, 0], env, k + 1);
      }
    }

    /** nand_default_block_markbad: the loop over marker positions and pages */
    method DefaultBlockMarkbad(p: nat, env: Env) returns (ret: Ret)
      requires Valid() && ValidEnv(c, env)
      modifies this`cells, this`selected, this`pagebuf, buffers
      ensures Valid()
      ensures old(CacheCoherent()) ==> CacheCoherent()
      ensures Marked(cells, ret, pagebuf, buffers[c.ws..]) ==
              MarkAll(c, env, Marked(old(cells), Ok, old(pagebuf), old(buffers[c.ws..])), 0, MarkPage(c, p), 0)
    {
      var q, i, k := MarkPage(c, p), 0, 0;
      ret := Ok;
      ghost var coherent := CacheCoherent();
      ghost var whole := MarkAll(c, env, Marked(cells, Ok, pagebuf, buffers[c.ws..]), 0, q, 0);
      while true
        invariant Valid() && 0 <= q && 0 <= k && 0 <= i < 2 && ret == Ok
        invariant coherent ==> CacheCoherent()
        invariant whole == MarkAll(c, env, Marked(cells, Ok, pagebuf, buffers[c.ws..]), k, q, i)
        decreases 2 - i
      {
        ghost var before := Marked(cells, Ok, pagebuf, buffers[c.ws..]);
        ret := MarkOnePage(q, env, k);
        MarkTurn(c, env, before, k, q, i, Marked(cells, ret, pagebuf, buffers[c.ws..]));
        if !(ret.Ok? && c.scan2ndPage && i + 1 < 2) {
          break;
        }
        i, q, k := i + 1, q + 1, k + 2;
      }
    }

    /** nand_block_markbad at any offset; nand_block_isbad lets the end of the device through to a chip that is not there. */
    method BlockMarkbad(ofs: nat, env: Env) returns (ret: Ret)
      requires Valid() && ValidEnv(c, env)
      modifies this`cells, this`selected, this`pagebuf, buffers
      ensures Valid()
      ensures old(CacheCoherent()) ==> CacheCoherent()
      ensures ofs > |cells| * c.ws ==> ret.EInval? && cells == old(cells)
      ensures ofs == |cells| * c.ws ==> ret.Bug? && cells == old(cells)
      ensures ofs < |cells| * c.ws ==>
                PageOf(c, ofs) < |cells| && CellsRet(cells, ret) == MarkBad(c, env, old(cells), PageOf(c, ofs))
      ensures pagebuf == BufAfterMarkbad(c, env, old(cells), ofs, old(pagebuf))
      ensures buffers[c.ws..] == StagedAfterMarkbad(c, env, old(cells), ofs, old(buffers[c.ws..]))
    {
      if ofs > |cells| * c.ws {
        return EInval;
      }
      ChipExists(c, |cells|, ofs);
      if ShiftRight(ofs, c.chipShift) >= c.numChips {
        return Bug;
      }
      var realpage, page, _ := Locate(ofs);
      var bad := BlockBad(realpage, page);
      if bad {
        return Ok;
      }
      MarkAllCells(c, env, Marked(cells, Ok, pagebuf, buffers[c.ws..]), 0, MarkPage(c, realpage), 0);
      SameMarks(c, env, cells, pagebuf, buffers[c.ws..], 0, MarkPage(c, realpage), 0);
      ret := DefaultBlockMarkbad(realpage, env);
    }

    // ---------------------------------------------------------------- erase

    /** The erase command on the selected chip, after the cache test for the block. */
    method EraseOne(realpage: nat, page: nat, env: Env, k: nat) returns (fail: bool)
      requires Valid() && ValidEnv(c, env) && OnPage(c, selected, realpage, page) && realpage % c.ppb == 0
      requires realpage + c.ppb <= |cells|
      modifies this`cells, this`pagebuf
      ensures Valid() && fail == EraseFails(env, k) && pagebuf == BufAfterBlock(c, old(pagebuf), realpage)
      ensures cells == EraseResult(c, env, old(cells), k, realpage)
      ensures old(CacheCoherent()) ==> CacheCoherent()
    {
      ghost var cache0, cells0 := CacheOf(), cells;
      if realpage <= pagebuf < realpage + c.ppb {
        pagebuf := -1;
      }
      MaskedPage(c, selected, realpage, page);
      var addr := Times(selected, c.ppc) + BitAnd(realpage, c.ppc - 1);
      assert addr == realpage;
      fail := EraseFails(env, k);
      cells := EraseResult(c, env, cells, k, addr);
      if old(CacheCoherent()) && pagebuf != -1 {
        EraseResultAt(c, env, cells0, k, realpage, pagebuf);
        OtherPageCoherent(c, cells0, cells, cache0);
      }
    }

    /** The body of the erase loop. */
    method EraseTurn(realpage: nat, page: nat, last: bool, env: Env, k: nat)
      returns (bad: bool, fail: bool, next: nat, nextpage: nat)
      requires Valid() && ValidEnv(c, env) && OnPage(c, selected, realpage, page) && BlockStart(c.ppb, realpage)
      requires realpage + c.ppb <= |cells| && (!last ==> realpage + c.ppb < |cells|)
      modifies this`cells, this`pagebuf, this`selected
      ensures Valid() && (old(CacheCoherent()) ==> CacheCoherent())
      ensures bad == BlockBadAt(c, old(cells), realpage) && (!bad ==> fail == EraseFails(env, k))
      ensures cells == if bad then old(cells) else EraseResult(c, env, old(cells), k, realpage)
      ensures pagebuf == if bad then old(pagebuf) else BufAfterBlock(c, old(pagebuf), realpage)
      ensures next == realpage + c.ppb && BlockStart(c.ppb, next)
      ensures !bad && !fail && !last ==> OnPage(c, selected, next, nextpage)
    {
      fail, next, nextpage := false, realpage + c.ppb, page;
      BlockStartIs(c.ppb, realpage);
      ScanAligned(c, realpage);
      bad := BlockBad(realpage, page);
      if !bad {
        fail := EraseOne(realpage, page, env, k);
        if !fail {
          nextpage := AdvanceBlock(realpage, page, last);
        }
      }
    }

    /** page += pages_per_block; at a chip's end the next chip is selected if blocks remain. */
    method AdvanceBlock(realpage: nat, page: nat, last: bool) returns (nextpage: nat)
      requires Valid() && OnPage(c, selected, realpage, page) && realpage % c.ppb == 0
      requires !last ==> realpage + c.ppb < |cells|
      modifies this`selected
      ensures Valid() && (realpage + c.ppb) % c.ppb == 0
      ensures !last ==> OnPage(c, selected, realpage + c.ppb, nextpage)
    {
      CrossBlock(c, selected, realpage, page);
      nextpage := BitAnd(realpage + c.ppb, c.ppc - 1);
      if !last && nextpage == 0 {
        var chipnr := selected + 1;
        SelectedInside(c, chipnr, realpage + c.ppb, nextpage);
        SelectChip(-1);
        SelectChip(chipnr);
      }
    }

    /** The call's outcome is known, or n blocks from page p remain. */
    ghost predicate EraseState(whole: EraseOut, over: bool, ret: Ret, failPage: int, env: Env, k: nat, p: nat, local: nat,
                               n: nat, coherent: bool, buf: int)
      reads this, buffers
    {
      && Valid() && ValidEnv(c, env) && (coherent ==> CacheCoherent())
      && if over then EraseOver(whole, buf, cells, pagebuf, ret, failPage)
         else OnPage(c, selected, p, local) && BlockStart(c.ppb, p)
              && EraseRemains(c, env, cells, pagebuf, k, p, n, whole, buf)
    }

    /** A turn of the erase loop, with the exits it takes. */
    method EraseStep(realpage: nat, page: nat, len: nat, size: nat, ghost n: nat, env: Env, k: nat,
                     ghost whole: EraseOut, ghost coherent: bool, ghost buf: int)
      returns (stop: bool, ret: Ret, failPage: int, next: nat, nextpage: nat, k': nat, ghost n': nat)
      requires EraseState(whole, false, Ok, -1, env, k, realpage, page, n, coherent, buf)
      requires len == Times(n, size) && size > 0
      modifies this`cells, this`pagebuf, this`selected
      ensures len >= size && n' == n - 1 && next == realpage + c.ppb && k' == k + 1
      ensures EraseState(whole, stop || n' == 0, ret, failPage, env, k', next, nextpage, n', coherent, buf)
    {
      BlocksLeft(n, size);
      BlocksFit(c.ppb, realpage, n, |cells|);
      ghost var cells0, buf0 := cells, pagebuf;
      var bad, fail;
      bad, fail, next, nextpage := EraseTurn(realpage, page, len == size, env, k);
      k', n' := k + 1, n - 1;
      EraseTurned(c, env, cells0, buf0, k, realpage, n, whole, buf, cells, pagebuf, k', next, n');
      stop := bad || fail;
      ret := if stop then EIo else Ok;
      failPage := if !bad && fail then realpage else -1;
    }

    /** The loop of nand_erase_nand; len is a whole number n of blocks. */
    method EraseLoop(page0: nat, local0: nat, len0: nat, size: nat, ghost n0: nat, env: Env, ghost coherent: bool,
                     ghost whole: EraseOut, ghost buf: int)
      returns (ret: Ret, failPage: int)
      requires EraseState(whole, n0 == 0, Ok, -1, env, 0, page0, local0, n0, coherent, buf)
      requires len0 == Times(n0, size) && size > 0
      modifies this`cells, this`pagebuf, this`selected
      ensures Valid() && (coherent ==> CacheCoherent())
      ensures cells == whole.cells && ret == whole.ret && failPage == whole.failPage && pagebuf == buf
    {
      ghost var n := n0;
      var page: nat, local, len: nat, k: nat := page0, local0, len0, 0;
      var stop := false;
      ret, failPage := Ok, -1;
      BlocksLeft(n, size);
      while !stop && len != 0
        invariant len == Times(n, size) && (len == 0 <==> n == 0)
        invariant EraseState(whole, stop || n == 0, ret, failPage, env, k, page, local, n, coherent, buf)
        decreases n
      {
        stop, ret, failPage, page, local, k, n := EraseStep(page, local, len, size, n, env, k, whole, coherent, buf);
        len := len - size;
        BlocksLeft(n, size);
      }
    }

    /** nand_erase_nand once the range is accepted */
    method EraseAcceptedRange(addr: nat, len: nat, env: Env) returns (ret: Ret, failAddr: int)
      requires Valid() && ValidEnv(c, env) && EraseAccepted(c, |cells|, addr, len)
      requires PageOf(c, addr) < |cells|
      modifies this`cells, this`pagebuf, this`selected
      ensures Valid()
      ensures old(CacheCoherent()) ==> CacheCoherent()
      ensures PageOf(c, addr) + Times(BlockCount(c, len), c.ppb) <= |cells|
      ensures var e := EraseBlocks(c, env, old(cells), 0, PageOf(c, addr), BlockCount(c, len));
              cells == e.cells && ret == e.ret && failAddr == FailAddr(c, e.failPage)
      ensures pagebuf == BufAfterErase(c, env, old(cells), 0, PageOf(c, addr), BlockCount(c, len), old(pagebuf))
    {
      EraseFits(c, |cells|, addr, len);
      BlocksLeft(BlockCount(c, len), Pow2(c.eraseShift));
      var page, local, _ := Locate(addr);
      ghost var n := BlockCount(c, len);
      BlockStartIs(c.ppb, page);
      var failPage;
      ret, failPage := EraseLoop(page, local, len, Pow2(c.eraseShift), n, env, CacheCoherent(),
                                 EraseBlocks(c, env, cells, 0, page, n), BufAfterErase(c, env, cells, 0, page, n, pagebuf));
      failAddr := if failPage < 0 then -1 else failPage * c.ws;
    }

    /**
     nand_erase_nand: ret, and fail_addr (-1 when it is not set, or set to MTD_FAIL_ADDR_UNKNOWN). An empty range at
     the end of the device passes the tests, and selects a chip that is not there.
     */
    method EraseNand(addr: nat, len: nat, env: Env) returns (ret: Ret, failAddr: int)
      requires Valid() && ValidEnv(c, env)
      modifies this`cells, this`pagebuf, this`selected
      ensures Valid()
      ensures old(CacheCoherent()) ==> CacheCoherent()
      ensures EraseDone(c, env, old(cells), addr, len, cells, ret, failAddr)
      ensures pagebuf == BufAfterEraseCall(c, env, old(cells), addr, len, old(pagebuf))
    {
      if BitAnd(addr, Pow2(c.eraseShift) - 1) != 0 || BitAnd(len, Pow2(c.eraseShift) - 1) != 0
         || addr + len > |cells| * c.ws {
        return EInval, -1;
      }
      ChipExists(c, |cells|, addr);
      if ShiftRight(addr, c.chipShift) >= c.numChips {
        return Bug, -1;
      }
      if env.protected {
        return EIo, -1;
      }
      ret, failAddr := EraseAcceptedRange(addr, len, env);
    }
  }
}
