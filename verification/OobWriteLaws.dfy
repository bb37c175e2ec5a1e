/** What an OOB write (`nand_do_write_oob`) does to every byte of the device, and its reading back. */
module OobWriteLaws {
  import opened Bytes
  import opened Geometry
  import opened OobLayout
  import opened NandSpec
  import opened WriteLaws
  import opened OobShares
  import opened ReadLaws

  /** The number of free bytes in the regions before region r */
  function FreeBefore(free: seq<Region>, r: nat): nat
    requires r <= |free|
  {
    if r == 0 then 0 else free[0].length + FreeBefore(free[1..], r - 1)
  }

  /** Slot by slot: outside AUTO mode slot i is OOB byte i, in AUTO mode the slots run through the regions in turn. */
  lemma {:induction false} AutoSlotAt(free: seq<Region>, size: nat, r: nat, d: nat)
    requires r < |free| && d < free[r].length
    ensures FreeBefore(free, r) + d < |Slots(free, size, Auto)|
    ensures Slots(free, size, Auto)[FreeBefore(free, r) + d] == free[r].offset + d
    decreases r
  {
    if r == 0 {
      RangeAt(free[0].offset, free[0].length, d);
    } else {
      AutoSlotAt(free[1..], size, r - 1, d);
    }
  }

  lemma PlaceSlotAt(free: seq<Region>, size: nat, mode: Mode, i: nat)
    requires !mode.Auto? && i < size
    ensures |Slots(free, size, mode)| == size && Slots(free, size, mode)[i] == i
  {
    RangeAt(0, size, i);
  }

  /** The request passes the tests, and the hardware carries it out. */
  ghost predicate OobAccepted(c: Config, n: nat, p: nat, mode: Mode, offs: nat, len: nat) {
    p < n && offs < |Slots(c.free, c.oobSize, mode)| && offs + len <= |Slots(c.free, c.oobSize, mode)|
  }

  /** The bytes the call sends, at the slots from offs on */
  lemma FilledAt(c: Config, mode: Mode, offs: nat, oob: seq<byte>, slots: seq<nat>, i: nat)
    requires DisjointRegions(c.free) && slots == Slots(c.free, c.oobSize, mode)
    requires offs + |oob| <= |slots| && i < |oob|
    ensures slots[offs + i] < c.oobSize
    ensures FillSpare(c, Blank(c.oobSize), mode, offs, oob)[slots[offs + i]] == oob[i]
  {
    var pos := slots[offs..offs + |oob|];
    PartDistinct(c.free, c.oobSize, mode, offs, |oob|, pos);
    ScatterAt(Blank(c.oobSize), pos, oob, i);
  }

  lemma FilledElsewhere(c: Config, mode: Mode, offs: nat, oob: seq<byte>, slots: seq<nat>, x: nat)
    requires slots == Slots(c.free, c.oobSize, mode) && offs + |oob| <= |slots| && x < c.oobSize
    requires forall s :: offs <= s < offs + |oob| ==> slots[s] != x
    ensures FillSpare(c, Blank(c.oobSize), mode, offs, oob)[x] == ERASED
  {
    var pos := slots[offs..offs + |oob|];
    SlotsWithin(c.free, c.oobSize, mode);
    forall i | 0 <= i < |pos| ensures pos[i] != x {
      assert pos[i] == slots[offs + i];
    }
    ScatterOther(Blank(c.oobSize), pos, oob, x);
    BlankAt(c.oobSize, x);
  }

  /** Column j of the page that a successful OOB write programs */
  lemma OobProgrammed(c: Config, env: Env, cells: seq<Page>, k: nat, p: nat, mode: Mode, offs: nat, oob: seq<byte>, j: nat,
                      fill: seq<byte>, cells': seq<Page>)
    requires ValidEnv(c, env) && ValidCells(c, cells) && OobAccepted(c, |cells|, p, mode, offs, |oob|)
    requires j < c.ws + c.oobSize && !ProgFails(env, k)
    requires fill == FillSpare(c, Blank(c.oobSize), mode, offs, oob)
    requires cells' == ProgramOob(c, env, cells, k, p, mode, offs, oob)
    ensures cells'[p][j] == if j < c.ws then cells[p][j] else cells[p][j] & fill[j - c.ws]
  {
    if j < c.ws {
      DataKept(cells[p], c.ws, fill, j);
    } else {
      OobBurned(cells[p], c.ws, fill, j, j - c.ws);
    }
  }

  /** The bits of an OOB write leave the data of a page alone, */
  lemma DataKept(page: Page, ws: nat, fill: seq<byte>, j: nat)
    requires j < ws && |page| == ws + |fill|
    ensures And(page, Blank(ws) + fill)[j] == page[j]
  {
    AndAt(page, Blank(ws) + fill, j);
    BlankAt(ws, j);
    AndErased(page[j]);
  }

  /** and are ANDed into its OOB area. */
  lemma OobBurned(page: Page, ws: nat, fill: seq<byte>, j: nat, x: nat)
    requires x < |fill| && j == ws + x && |page| == ws + |fill|
    ensures And(page, Blank(ws) + fill)[j] == page[j] & fill[x]
  {
    AndAt(page, Blank(ws) + fill, j);
    BehindBlank(Blank(ws), fill, j);
  }

  lemma BehindBlank(a: seq<byte>, b: seq<byte>, j: nat)
    requires |a| <= j < |a| + |b|
    ensures (a + b)[j] == b[j - |a|]
  {
  }

  /** The errors of nand_do_write_oob, and what they leave of the flash */
  lemma OobWriteErrors(c: Config, env: Env, cells: seq<Page>, k: nat, p: nat, mode: Mode, offs: nat, oob: seq<byte>, q: nat)
    requires ValidEnv(c, env) && ValidCells(c, cells) && q < |cells|
    ensures var w := WriteOobOnly(c, env, cells, k, p, mode, offs, oob);
            && (w.ret.EInval? <==> !OobAccepted(c, |cells|, p, mode, offs, |oob|))
            && (w.ret.ERofs? <==> OobAccepted(c, |cells|, p, mode, offs, |oob|) && env.protected)
            && (w.ret.Ok? <==> OobAccepted(c, |cells|, p, mode, offs, |oob|) && !env.protected && !ProgFails(env, k))
            && (w.ret.EInval? || w.ret.ERofs? || w.ret.EIo? || w.ret.Ok?)
            && (w.ret.EInval? || w.ret.ERofs? ==> w.cells == cells)
            && (q != p ==> w.cells[q] == cells[q])
            && (q == p && w.ret.EIo? ==> w.cells[q] == And(cells[q], Torn(c, env, k)))
  {
  }

  /** After a successful OOB write client byte i is in slot offs + i, ANDed with what was there, */
  lemma OobWriteClient(c: Config, env: Env, cells: seq<Page>, k: nat, p: nat, mode: Mode, offs: nat, oob: seq<byte>, i: nat,
                       x: nat)
    requires ValidEnv(c, env) && ValidCells(c, cells) && DisjointRegions(c.free)
    requires OobAccepted(c, |cells|, p, mode, offs, |oob|) && !env.protected && !ProgFails(env, k)
    requires i < |oob| && x == Slots(c.free, c.oobSize, mode)[offs + i]
    ensures x < c.oobSize
    ensures WriteOobOnly(c, env, cells, k, p, mode, offs, oob).cells[p][c.ws + x] == cells[p][c.ws + x] & oob[i]
  {
    FilledAt(c, mode, offs, oob, Slots(c.free, c.oobSize, mode), i);
    OobProgrammed(c, env, cells, k, p, mode, offs, oob, c.ws + x, FillSpare(c, Blank(c.oobSize), mode, offs, oob),
                  ProgramOob(c, env, cells, k, p, mode, offs, oob));
  }

  /** and every other byte of the page, its data included, is as it was. */
  lemma OobWriteRest(c: Config, env: Env, cells: seq<Page>, k: nat, p: nat, mode: Mode, offs: nat, oob: seq<byte>, j: nat)
    requires ValidEnv(c, env) && ValidCells(c, cells)
    requires OobAccepted(c, |cells|, p, mode, offs, |oob|) && !env.protected && !ProgFails(env, k)
    requires j < c.ws + c.oobSize
    requires forall s :: offs <= s < offs + |oob| ==> c.ws + Slots(c.free, c.oobSize, mode)[s] != j
    ensures WriteOobOnly(c, env, cells, k, p, mode, offs, oob).cells[p][j] == cells[p][j]
  {
    OobProgrammed(c, env, cells, k, p, mode, offs, oob, j, FillSpare(c, Blank(c.oobSize), mode, offs, oob),
                  ProgramOob(c, env, cells, k, p, mode, offs, oob));
    if j >= c.ws {
      FilledElsewhere(c, mode, offs, oob, Slots(c.free, c.oobSize, mode), j - c.ws);
      AndErased(cells[p][j]);
    }
  }

  // ---------------------------------------------------------------- reading back

  /** The page function hands out the OOB area as the page holds it. */
  ghost predicate DeliversOob(c: Config) {
    forall page: Page :: |page| == c.ws + c.oobSize ==> Decode(c, page).oob == page[c.ws..]
  }

  /** The OOB bytes of a read that wants no more than one page has to give */
  lemma OnePageOob(c: Config, cells: seq<Page>, p: nat, col: nat, len: nat, mode: Mode, offs: nat, n: nat, i: nat, x: nat)
    requires ValidCells(c, cells) && p < |cells| && col + len <= c.ws && col < c.ws && len <= Room(c.ws, |cells|, p, col)
    requires (mode.Raw? || DeliversOob(c)) && offs + n <= |Slots(c.free, c.oobSize, mode)|
    requires i < n && x == Slots(c.free, c.oobSize, mode)[offs + i]
    ensures ReadFits(c, mode, OobRead(offs, n)) && x < c.oobSize
    ensures |ReadPages(c, cells, p, col, len, mode, OobRead(offs, n)).oob| == n
    ensures ReadPages(c, cells, p, col, len, mode, OobRead(offs, n)).oob[i] == cells[p][c.ws + x]
  {
    var slots := Slots(c.free, c.oobSize, mode);
    OobByte(c, cells, p, col, len, mode, offs, n, slots, 1, 0, i, i, p,
            ReadPages(c, cells, p, col, len, mode, OobRead(offs, n)).oob);
    OobLength(c, cells, p, col, len, mode, offs, n, slots, 1);
    assert Delivered(|slots|, offs, 0, 0) == 0;
    assert SpareOf(c, cells[p], mode) == cells[p][c.ws..];
  }

  ghost predicate ErasedSpare(c: Config, page: Page) {
    |page| == c.ws + c.oobSize && page[c.ws..] == Blank(c.oobSize)
  }

  /** An OOB write to an erased OOB area, then a read of any stretch of the page: the client's bytes come back. */
  lemma OobRoundTrip(c: Config, env: Env, cells: seq<Page>, k: nat, p: nat, mode: Mode, offs: nat, oob: seq<byte>, col: nat,
                     len: nat)
    requires ValidEnv(c, env) && ValidCells(c, cells) && DisjointRegions(c.free) && (mode.Raw? || DeliversOob(c))
    requires OobAccepted(c, |cells|, p, mode, offs, |oob|) && ErasedSpare(c, cells[p])
    requires col < c.ws && col + len <= c.ws && len <= Room(c.ws, |cells|, p, col)
    ensures ReadFits(c, mode, OobRead(offs, |oob|))
    ensures var w := WriteOobOnly(c, env, cells, k, p, mode, offs, oob);
            w.ret.Ok? ==> ReadPages(c, w.cells, p, col, len, mode, OobRead(offs, |oob|)).oob == oob
  {
    var w := WriteOobOnly(c, env, cells, k, p, mode, offs, oob);
    if w.ret.Ok? {
      forall i | 0 <= i < |oob| ensures ClientByteBack(c, w.cells, p, col, len, mode, offs, oob, i) {
        ByteComesBack(c, env, cells, k, p, mode, offs, oob, col, len, i);
      }
      AllBack(c, w.cells, p, col, len, mode, offs, oob);
    }
  }

  ghost predicate ClientByteBack(c: Config, cells: seq<Page>, p: nat, col: nat, len: nat, mode: Mode, offs: nat,
                                 oob: seq<byte>, i: nat)
    requires ValidCells(c, cells) && col < c.ws && p < |cells| && len <= Room(c.ws, |cells|, p, col)
    requires ReadFits(c, mode, OobRead(offs, |oob|)) && i < |oob|
  {
    var r := ReadPages(c, cells, p, col, len, mode, OobRead(offs, |oob|)).oob;
    |r| == |oob| && r[i] == oob[i]
  }

  lemma AllBack(c: Config, cells: seq<Page>, p: nat, col: nat, len: nat, mode: Mode, offs: nat, oob: seq<byte>)
    requires ValidCells(c, cells) && col < c.ws && p < |cells| && len <= Room(c.ws, |cells|, p, col)
    requires col + len <= c.ws && offs + |oob| <= |Slots(c.free, c.oobSize, mode)|
    requires forall i :: 0 <= i < |oob| ==> ClientByteBack(c, cells, p, col, len, mode, offs, oob, i)
    ensures ReadPages(c, cells, p, col, len, mode, OobRead(offs, |oob|)).oob == oob
  {
    var r := ReadPages(c, cells, p, col, len, mode, OobRead(offs, |oob|)).oob;
    if oob == [] {
      ReadLast(c, cells, p, col, len, mode, OobRead(offs, 0));
      assert Slots(c.free, c.oobSize, mode)[offs..offs + 0] == [];
    } else {
      assert ClientByteBack(c, cells, p, col, len, mode, offs, oob, 0);
      forall i | 0 <= i < |oob| ensures r[i] == oob[i] {
        assert ClientByteBack(c, cells, p, col, len, mode, offs, oob, i);
      }
    }
  }

  lemma ByteComesBack(c: Config, env: Env, cells: seq<Page>, k: nat, p: nat, mode: Mode, offs: nat, oob: seq<byte>,
                      col: nat, len: nat, i: nat)
    requires ValidEnv(c, env) && ValidCells(c, cells) && DisjointRegions(c.free) && (mode.Raw? || DeliversOob(c))
    requires OobAccepted(c, |cells|, p, mode, offs, |oob|) && ErasedSpare(c, cells[p])
    requires col < c.ws && col + len <= c.ws && len <= Room(c.ws, |cells|, p, col) && i < |oob|
    requires !env.protected && !ProgFails(env, k)
    ensures ReadFits(c, mode, OobRead(offs, |oob|))
    ensures ClientByteBack(c, WriteOobOnly(c, env, cells, k, p, mode, offs, oob).cells, p, col, len, mode, offs, oob, i)
  {
    var x, cells' := Slots(c.free, c.oobSize, mode)[offs + i], WriteOobOnly(c, env, cells, k, p, mode, offs, oob).cells;
    OobWriteClient(c, env, cells, k, p, mode, offs, oob, i, x);
    OnePageOob(c, cells', p, col, len, mode, offs, |oob|, i, x);
    assert cells[p][c.ws + x] == cells[p][c.ws..][x];
    BlankAt(c.oobSize, x);
    FromErased(oob[i]);
  }

  lemma FromErased(x: byte)
    ensures ERASED & x == x
  {
  }
}
