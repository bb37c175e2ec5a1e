/**
 A property of pages that aligned writes to erased bytes keep, and pages that read back as they are:
 what the write and read loops make of them.
 */
module PageInvariants {
  import opened Bytes
  import opened Geometry
  import opened OobLayout
  import opened NandSpec
  import opened WriteLaws
  import opened SwEcc

  type PageProperty = Page -> bool

  /** Programming one aligned stretch of erased bytes keeps the property of a page. */
  ghost predicate TurnKeeps(c: Config, good: PageProperty, unit: nat, page: Page, m: nat, data: seq<byte>, l: nat,
                            mode: Mode, spare: seq<byte>, col: nat)
  {
    |page| == c.ws + c.oobSize && |spare| == c.oobSize && !mode.Raw? && good(page)
    && col == Times(m, unit) && |data| == Times(l, unit) && col + |data| <= c.ws
    && page[col..col + |data|] == Blank(|data|)
    ==> good(And(page, TurnImage(c, col, data, mode, NoOob, spare).bits))
  }

  ghost predicate TurnsKeep(c: Config, good: PageProperty, unit: nat) {
    forall page: Page, m: nat, data: seq<byte>, l: nat, mode: Mode, spare: seq<byte>, col: nat ::
      TurnKeeps(c, good, unit, page, m, data, l, mode, spare, col)
  }

  /** The bytes a write of len bytes from column col of page p is going to program are erased. */
  ghost predicate BlankAhead(c: Config, cells: seq<Page>, p: nat, col: nat, len: nat)
    requires ValidCells(c, cells) && col < c.ws && 0 < len <= Room(c.ws, |cells|, p, col)
    decreases len
  {
    var bytes := Min(c.ws - col, len);
    && cells[p][col..col + bytes] == Blank(bytes)
    && (bytes < len ==> BlankAhead(c, cells, p + 1, 0, len - bytes))
  }

  lemma {:induction false} BlankAheadSame(c: Config, cells: seq<Page>, cells': seq<Page>, p: nat, col: nat, len: nat)
    requires ValidCells(c, cells) && ValidCells(c, cells') && |cells'| == |cells|
    requires col < c.ws && 0 < len <= Room(c.ws, |cells|, p, col)
    requires BlankAhead(c, cells, p, col, len) && forall i :: p <= i < |cells| ==> cells'[i] == cells[i]
    ensures BlankAhead(c, cells', p, col, len)
    decreases len
  {
    if c.ws - col < len {
      BlankAheadSame(c, cells, cells', p + 1, 0, len - (c.ws - col));
    }
  }

  /** After the first page is programmed, what is left to program is still erased. */
  lemma BlankRest(c: Config, cells: seq<Page>, cells': seq<Page>, p: nat, col: nat, len: nat, bits: Page, env: Env,
                  k: nat, len': nat)
    requires ValidCells(c, cells) && ValidEnv(c, env) && |bits| == c.ws + c.oobSize
    requires col < c.ws && c.ws - col < len <= Room(c.ws, |cells|, p, col) && len' == len - (c.ws - col)
    requires BlankAhead(c, cells, p, col, len) && cells' == Program(c, cells, p, bits, env, k)
    ensures len' <= Room(c.ws, |cells'|, p + 1, 0) && BlankAhead(c, cells', p + 1, 0, len')
  {
    BlankAheadSame(c, cells, cells', p + 1, 0, len');
  }

  lemma TimesLe(m: nat, n: nat, k: nat)
    requires k > 0 && Times(m, k) <= Times(n, k)
    ensures m <= n
  {
    if m > n {
      TimesMono(n + 1, m, k);
    }
  }

  /** The whole units of a page after column col, and those of a request that are left after it */
  lemma UnitsLeft(unit: nat, ws: nat, steps: nat, m: nat, l: nat, col: nat, len: nat)
    requires unit > 0 && ws == Times(steps, unit) && col == Times(m, unit) && len == Times(l, unit)
    requires col <= ws && ws - col <= len
    ensures m <= steps && steps - m <= l
    ensures Times(steps - m, unit) == ws - col && Times(l - (steps - m), unit) == len - (ws - col)
  {
    TimesLe(m, steps, unit);
    TimesAdd(m, steps - m, unit);
    TimesLe(steps - m, l, unit);
    TimesAdd(steps - m, l - (steps - m), unit);
  }

  /** The program of one page, seen from any page */
  lemma ProgramKeeps(c: Config, good: PageProperty, unit: nat, env: Env, cells: seq<Page>, k: nat, p: nat, m: nat,
                     data: seq<byte>, l: nat, mode: Mode, spare: seq<byte>, col: nat, image: Image, cells': seq<Page>,
                     q: nat)
    requires TurnsKeep(c, good, unit) && ValidEnv(c, env) && ValidCells(c, cells) && |spare| == c.oobSize
    requires p < |cells| && q < |cells| && !mode.Raw? && !ProgFails(env, k)
    requires col == Times(m, unit) && |data| == Times(l, unit) && col + |data| <= c.ws
    requires cells[p][col..col + |data|] == Blank(|data|) && good(cells[q])
    requires image == TurnImage(c, col, data, mode, NoOob, spare)
    requires cells' == Program(c, cells, p, image.bits, env, k)
    ensures good(cells'[q])
  {
    assert TurnKeeps(c, good, unit, cells[p], m, data, l, mode, spare, col);
  }

  /** A turn that fills its page keeps the property, and leaves whole units to write. */
  lemma UnitsRest(c: Config, good: PageProperty, unit: nat, steps: nat, env: Env, cells: seq<Page>, k: nat, p: nat,
                  col: nat, data: seq<byte>, mode: Mode, spare: seq<byte>, m: nat, l: nat, q: nat, image: Image,
                  cells': seq<Page>)
    returns (l': nat)
    requires TurnsKeep(c, good, unit) && unit > 0 && c.ws == Times(steps, unit) && ValidEnv(c, env)
    requires ValidCells(c, cells) && |spare| == c.oobSize && !mode.Raw? && !ProgFails(env, k)
    requires col < c.ws && c.ws - col < |data| && col == Times(m, unit) && |data| == Times(l, unit)
    requires p < |cells| && q < |cells| && good(cells[q]) && cells[p][col..c.ws] == Blank(c.ws - col)
    requires image == TurnImage(c, col, data[..c.ws - col], mode, NoOob, spare)
    requires cells' == Program(c, cells, p, image.bits, env, k)
    ensures good(cells'[q]) && |data| - (c.ws - col) == Times(l', unit)
  {
    UnitsLeft(unit, c.ws, steps, m, l, col, |data|);
    l' := l - (steps - m);
    ProgramKeeps(c, good, unit, env, cells, k, p, m, data[..c.ws - col], steps - m, mode, spare, col, image, cells', q);
  }

  /** A whole write keeps the property of every page. */
  lemma {:induction false} WriteKeeps(c: Config, good: PageProperty, unit: nat, steps: nat, env: Env, cells: seq<Page>,
                                      k: nat, p: nat, col: nat, data: seq<byte>, mode: Mode, spare: seq<byte>,
                                      m: nat, l: nat, q: nat)
    requires TurnsKeep(c, good, unit) && unit > 0 && c.ws == Times(steps, unit)
    requires ValidEnv(c, env) && ValidCells(c, cells) && |spare| == c.oobSize
    requires col < c.ws && 0 < |data| <= Room(c.ws, |cells|, p, col) && !mode.Raw?
    requires col == Times(m, unit) && |data| == Times(l, unit)
    requires BlankAhead(c, cells, p, col, |data|) && q < |cells| && good(cells[q])
    requires forall i: nat :: !ProgFails(env, i)
    ensures good(WritePages(c, env, cells, k, p, col, data, mode, NoOob, spare).cells[q])
    decreases |data|
  {
    assert !ProgFails(env, k);
    if |data| <= c.ws - col {
      LastTurnKeeps(c, good, unit, env, cells, k, p, col, data, mode, spare, m, l, q);
    } else {
      var bytes := c.ws - col;
      var data' := data[bytes..];
      var image := TurnImage(c, col, data[..bytes], mode, NoOob, spare);
      var cells' := Program(c, cells, p, image.bits, env, k);
      var l' := UnitsRest(c, good, unit, steps, env, cells, k, p, col, data, mode, spare, m, l, q, image, cells');
      BlankRest(c, cells, cells', p, col, |data|, image.bits, env, k, |data'|);
      WriteMore(c, env, cells, k, p, col, data, bytes, mode, NoOob, spare, image, cells', data', NoOob);
      WriteKeeps(c, good, unit, steps, env, cells', k + 1, p + 1, 0, data', mode, image.oob, 0, l', q);
    }
  }

  lemma LastTurnKeeps(c: Config, good: PageProperty, unit: nat, env: Env, cells: seq<Page>, k: nat, p: nat, col: nat,
                      data: seq<byte>, mode: Mode, spare: seq<byte>, m: nat, l: nat, q: nat)
    requires TurnsKeep(c, good, unit) && ValidEnv(c, env) && ValidCells(c, cells) && |spare| == c.oobSize
    requires col < c.ws && 0 < |data| <= Room(c.ws, |cells|, p, col) && |data| <= c.ws - col && !mode.Raw?
    requires col == Times(m, unit) && |data| == Times(l, unit)
    requires cells[p][col..col + |data|] == Blank(|data|) && q < |cells| && good(cells[q]) && !ProgFails(env, k)
    ensures good(WritePages(c, env, cells, k, p, col, data, mode, NoOob, spare).cells[q])
  {
    var image := TurnImage(c, col, data, mode, NoOob, spare);
    var cells' := Program(c, cells, p, image.bits, env, k);
    assert data[..|data|] == data;
    WriteLast(c, env, cells, k, p, col, data, |data|, mode, NoOob, spare, image, cells');
    ProgramKeeps(c, good, unit, env, cells, k, p, m, data, l, mode, spare, col, image, cells', q);
  }

  // ---------------------------------------------------------------- reading pages that read as they are

  ghost predicate ReadsAsIs(c: Config, page: Page, col: nat, bytes: nat, mode: Mode)
    requires |page| == c.ws + c.oobSize
  {
    !mode.Raw? && col + bytes <= c.ws && bytes > 0 ==>
      var r := PageRead(c, page, col, bytes, mode, false);
      r.data == page[col..col + bytes] && r.failed == 0 && r.corrected == 0
  }

  /** Any part of the page reads back as it is stored. */
  ghost predicate Faithful(c: Config, page: Page) {
    |page| == c.ws + c.oobSize && forall col: nat, bytes: nat, mode: Mode :: ReadsAsIs(c, page, col, bytes, mode)
  }

  /** The pages a read of len bytes touches do. */
  ghost predicate FaithfulAhead(c: Config, cells: seq<Page>, p: nat, col: nat, len: nat)
    requires ValidCells(c, cells) && col < c.ws && 0 < len <= Room(c.ws, |cells|, p, col)
    decreases len
  {
    Faithful(c, cells[p]) && (c.ws - col < len ==> FaithfulAhead(c, cells, p + 1, 0, len - (c.ws - col)))
  }

  lemma {:induction false} FaithfulRead(c: Config, cells: seq<Page>, p: nat, col: nat, len: nat, mode: Mode)
    requires ValidCells(c, cells) && !mode.Raw?
    requires col < c.ws && 0 < len <= Room(c.ws, |cells|, p, col) && FaithfulAhead(c, cells, p, col, len)
    ensures ReadPages(c, cells, p, col, len, mode, NoOobRead).failed == 0
    ensures ReadPages(c, cells, p, col, len, mode, NoOobRead).corrected == 0
    decreases len
  {
    var bytes := Min(c.ws - col, len);
    assert ReadsAsIs(c, cells[p], col, bytes, mode);
    if bytes < len {
      ReadMore(c, cells, p, col, len, bytes, mode, NoOobRead, NoOobRead);
      FaithfulRead(c, cells, p + 1, 0, len - bytes, mode);
    } else {
      ReadLast(c, cells, p, col, len, mode, NoOobRead);
    }
  }

  /** The bytes a read delivers from its first page */
  lemma FirstPageByte(c: Config, cells: seq<Page>, p: nat, col: nat, len: nat, mode: Mode, j: nat)
    requires ValidCells(c, cells) && !mode.Raw?
    requires col < c.ws && 0 < len <= Room(c.ws, |cells|, p, col) && Faithful(c, cells[p])
    requires col <= j < c.ws && j - col < len
    ensures ReadPages(c, cells, p, col, len, mode, NoOobRead).data[j - col] == cells[p][j]
  {
    var bytes := Min(c.ws - col, len);
    assert ReadsAsIs(c, cells[p], col, bytes, mode);
    if bytes < len {
      ReadMore(c, cells, p, col, len, bytes, mode, NoOobRead, NoOobRead);
    } else {
      ReadLast(c, cells, p, col, len, mode, NoOobRead);
    }
  }

  lemma LaterPageByte(c: Config, cells: seq<Page>, p: nat, col: nat, len: nat, bytes: nat, mode: Mode, i: nat)
    requires ValidCells(c, cells) && col < c.ws && len <= Room(c.ws, |cells|, p, col) && bytes == c.ws - col < len
    requires bytes <= i < len
    ensures len - bytes <= Room(c.ws, |cells|, p + 1, 0)
    ensures ReadPages(c, cells, p, col, len, mode, NoOobRead).data[i] ==
            ReadPages(c, cells, p + 1, 0, len - bytes, mode, NoOobRead).data[i - bytes]
  {
    ReadMore(c, cells, p, col, len, bytes, mode, NoOobRead, NoOobRead);
    var first := PageRead(c, cells[p], col, bytes, mode, false).data;
    assert |first| == bytes;
  }

  /** Every byte of the range is delivered as the flash holds it. */
  lemma {:induction false} FaithfulByte(c: Config, cells: seq<Page>, p: nat, col: nat, len: nat, mode: Mode, q: nat, j: nat)
    requires ValidCells(c, cells) && !mode.Raw?
    requires col < c.ws && 0 < len <= Room(c.ws, |cells|, p, col) && FaithfulAhead(c, cells, p, col, len)
    requires q < |cells| && j < c.ws && Written(c.ws, p, col, len, q, j)
    ensures ReadPages(c, cells, p, col, len, mode, NoOobRead).data[Distance(c.ws, p, col, q, j)] == cells[q][j]
    decreases len
  {
    if q == p {
      FirstPageByte(c, cells, p, col, len, mode, j);
    } else {
      var bytes, i := c.ws - col, Distance(c.ws, p, col, q, j);
      DistanceFrom(c.ws, p, col, q, j);
      DistanceFrom(c.ws, p + 1, 0, q, j);
      assert i - bytes == Distance(c.ws, p + 1, 0, q, j);
      FaithfulByte(c, cells, p + 1, 0, len - bytes, mode, q, j);
      LaterPageByte(c, cells, p, col, len, bytes, mode, i);
    }
  }
}

/** Software ECC: disjoint aligned writes to erased bytes, then a read. */
module WriteReadBack {
  import opened Bytes
  import opened Geometry
  import opened OobLayout
  import opened NandSpec
  import opened NandRequests
  import opened PageCache
  import opened WriteLaws
  import opened SwEcc
  import opened SubpageRefinement
  import opened SwNand
  import opened PageInvariants

  /** The page's codes are those of its data. */
  ghost function CleanPage(e: Ecc): PageProperty {
    (page: Page) => |page| == e.ws + e.oobSize && Clean(e, page)
  }

  lemma EncodeIs(c: Config, e: Ecc, d: seq<byte>, o: seq<byte>)
    requires SwDevice(c, e) && |d| == c.ws && |o| == c.oobSize
    ensures Encode(c, d, o) == SwEncode(e, d, o)
  {
  }

  lemma EncodedData(e: Ecc, d: seq<byte>, o: seq<byte>)
    requires |d| == e.ws && |o| == e.oobSize
    ensures SwEncode(e, d, o).bits[..e.ws] == d
  {
  }

  lemma StoresInPlace(c: Config, e: Ecc)
    requires SwDevice(c, e)
    ensures StoresData(c)
  {
    forall d: seq<byte>, o: seq<byte> | |d| == c.ws && |o| == c.oobSize ensures Encode(c, d, o).bits[..c.ws] == d {
      EncodeIs(c, e, d, o);
      EncodedData(e, d, o);
    }
  }

  lemma StepsFit(e: Ecc, m: nat, l: nat, col: nat, len: nat)
    requires col == Times(m, e.size) && len == Times(l, e.size) && col + len <= e.ws
    ensures m + l <= e.steps
  {
    TimesAdd(m, l, e.size);
    TimesLe(m + l, e.steps, e.size);
  }

  lemma ProgramIsClean(e: Ecc, page: Page, m: nat, data: seq<byte>, l: nat, spare: seq<byte>, col: nat, pad: seq<byte>, a: seq<byte>)
    requires GoodCode(e) && |page| == e.ws + e.oobSize && |spare| == e.oobSize && Clean(e, page) && a == page[..e.ws]
    requires col == Times(m, e.size) && |data| == Times(l, e.size) && col + |data| <= e.ws
    requires a[col..col + |data|] == Blank(|data|) && pad == Padded(e.ws, col, data)
    ensures Clean(e, And(page, SwEncode(e, pad, spare).bits))
  {
    PadApart(e, a, m, data, l, col, pad);
    ProgramKeepsClean(e, page, pad, spare);
  }

  lemma TargetInData(page: Page, ws: nat, col: nat, len: nat, a: seq<byte>)
    requires ws <= |page| && col + len <= ws && a == page[..ws]
    ensures a[col..col + len] == page[col..col + len]
  {
  }

  lemma PadApart(e: Ecc, a: seq<byte>, m: nat, data: seq<byte>, l: nat, col: nat, pad: seq<byte>)
    requires |a| == e.ws && col == Times(m, e.size) && |data| == Times(l, e.size) && col + |data| <= e.ws
    requires a[col..col + |data|] == Blank(|data|) && pad == Padded(e.ws, col, data)
    ensures StepsApart(e, a, pad, e.steps)
  {
    StepsFit(e, m, l, col, |data|);
    PaddedApart(e, a, m, data, l, e.steps, col);
  }

  lemma CleanTurn(c: Config, e: Ecc, page: Page, m: nat, data: seq<byte>, l: nat, mode: Mode, spare: seq<byte>, col: nat)
    requires SwDevice(c, e) && GoodCode(e)
    ensures TurnKeeps(c, CleanPage(e), e.size, page, m, data, l, mode, spare, col)
  {
    if |page| == c.ws + c.oobSize && |spare| == c.oobSize && !mode.Raw? && Clean(e, page)
       && col == Times(m, e.size) && |data| == Times(l, e.size) && col + |data| <= c.ws
       && page[col..col + |data|] == Blank(|data|)
    {
      var pad := Padded(c.ws, col, data);
      EncodeIs(c, e, pad, spare);
      CleanProgram(e, page, m, data, l, spare, col, pad);
    }
  }

  lemma CleanProgram(e: Ecc, page: Page, m: nat, data: seq<byte>, l: nat, spare: seq<byte>, col: nat, pad: seq<byte>)
    requires GoodCode(e) && |page| == e.ws + e.oobSize && |spare| == e.oobSize && Clean(e, page)
    requires col == Times(m, e.size) && |data| == Times(l, e.size) && col + |data| <= e.ws
    requires page[col..col + |data|] == Blank(|data|) && pad == Padded(e.ws, col, data)
    ensures Clean(e, And(page, SwEncode(e, pad, spare).bits))
  {
    TargetInData(page, e.ws, col, |data|, page[..e.ws]);
    ProgramIsClean(e, page, m, data, l, spare, col, pad, page[..e.ws]);
  }

  /** Software ECC keeps its pages clean when whole erased steps are programmed. */
  lemma CleanTurns(c: Config, e: Ecc)
    requires SwDevice(c, e) && GoodCode(e)
    ensures TurnsKeep(c, CleanPage(e), e.size)
  {
    forall page: Page, m: nat, data: seq<byte>, l: nat, mode: Mode, spare: seq<byte>, col: nat
      ensures TurnKeeps(c, CleanPage(e), e.size, page, m, data, l, mode, spare, col)
    {
      CleanTurn(c, e, page, m, data, l, mode, spare, col);
    }
  }

  lemma CleanReadsAsIs(c: Config, e: Ecc, page: Page, col: nat, bytes: nat, mode: Mode)
    requires SwDevice(c, e) && GoodCode(e) && |page| == c.ws + c.oobSize && Clean(e, page)
    ensures ReadsAsIs(c, page, col, bytes, mode)
  {
    if !mode.Raw? && col + bytes <= c.ws && bytes > 0 {
      CleanDecodes(e, page);
      assert Decode(c, page) == SwDecode(e, page);
      assert page[..c.ws][col..col + bytes] == page[col..col + bytes];
      if bytes != c.ws && c.subpageRead {
        CleanPart(c, e, page, col, bytes);
      }
    }
  }

  lemma CleanPart(c: Config, e: Ecc, page: Page, col: nat, bytes: nat)
    requires SwDevice(c, e) && |page| == c.ws + c.oobSize && c.subpageRead && 0 < bytes && col + bytes <= c.ws
    requires SwDecode(e, page).failed == 0 && SwDecode(e, page).corrected == 0
    ensures DecodePart(c, page, col, bytes).failed == 0 && DecodePart(c, page, col, bytes).corrected == 0
  {
    PartOfPage(e, page, col, bytes);
    assert DecodePart(c, page, col, bytes) == SwPart(e, page, col, bytes);
  }

  /** A clean page reads back as it is. */
  lemma CleanIsFaithful(c: Config, e: Ecc, page: Page)
    requires SwDevice(c, e) && GoodCode(e) && CleanPage(e)(page)
    ensures Faithful(c, page)
  {
    forall col: nat, bytes: nat, mode: Mode ensures ReadsAsIs(c, page, col, bytes, mode) {
      CleanReadsAsIs(c, e, page, col, bytes, mode);
    }
  }

  // ---------------------------------------------------------------- one write

  /** The offset of column j of page q */
  function Offset(ws: nat, q: nat, j: nat): nat {
    Times(q, ws) + j
  }

  lemma OffsetIs(ws: nat, q: nat, j: nat)
    ensures Offset(ws, q, j) == q * ws + j
  {
    TimesIsProduct(q, ws);
  }

  predicate Covers(ws: nat, to: nat, len: nat, q: nat, j: nat) {
    to <= Offset(ws, q, j) < to + len
  }

  /** The target bytes of a write are erased. */
  ghost predicate ErasedTarget(c: Config, cells: seq<Page>, to: nat, len: nat)
    requires ValidCells(c, cells)
  {
    forall q, j :: 0 <= q < |cells| && 0 <= j < c.ws && Covers(c.ws, to, len, q, j) ==> cells[q][j] == ERASED
  }

  lemma {:induction false} TargetIsBlank(c: Config, cells: seq<Page>, to: nat, len: nat, p: nat, col: nat, n: nat)
    requires ValidCells(c, cells) && ErasedTarget(c, cells, to, len)
    requires col < c.ws && 0 < n <= Room(c.ws, |cells|, p, col) && to <= Offset(c.ws, p, col) && Offset(c.ws, p, col) + n <= to + len
    ensures BlankAhead(c, cells, p, col, n)
    decreases n
  {
    var bytes := Min(c.ws - col, n);
    var part := cells[p][col..col + bytes];
    forall i | 0 <= i < bytes ensures part[i] == Blank(bytes)[i] {
      assert Covers(c.ws, to, len, p, col + i);
      BlankAt(bytes, i);
    }
    if bytes < n {
      TargetIsBlank(c, cells, to, len, p + 1, 0, n - bytes);
    }
  }

  /** An ordinary write: no OOB buffer, not raw, accepted, and the hardware reports no failure. */
  ghost predicate PlainWrite(c: Config, n: nat, e: Event) {
    && ValidEvent(c, n, e) && e.req.Write? && !e.req.mode.Raw? && e.req.ow.NoOob?
    && InDevice(c, n, e.req.to, |e.req.data|) && e.req.data != []
    && WriteChecks(c, e.req.to, |e.req.data|, e.req.mode, NoOob, e.env).Ok?
    && forall i: nat :: !ProgFails(e.env, i)
  }

  /** Every subpage is a whole number of ECC steps. */
  ghost predicate WholeSteps(c: Config, e: Ecc, s: nat) {
    c.subpageSize == Times(s, e.size)
  }

  /** The subpage size nand_scan_tail computes makes it so. */
  lemma ScannedDevice(c: Config, e: Ecc, allowed: bool) returns (s: nat)
    requires SwDevice(c, e) && c.subpageSize == ShiftRight(c.ws, SubpageShift(e.steps, allowed))
    ensures WholeSteps(c, e, s)
  {
    s := ScannedWholeSteps(e, allowed);
  }

  lemma {:induction false} TimesTimes(a: nat, s: nat, k: nat)
    ensures Times(a, Times(s, k)) == Times(a * s, k)
  {
    if a > 0 {
      TimesTimes(a - 1, s, k);
      assert a * s == (a - 1) * s + s;
      TimesAdd((a - 1) * s, s, k);
    }
  }

  /** A length or column aligned to subpages is a whole number of steps. */
  lemma AlignedIsSteps(c: Config, e: Ecc, s: nat, x: nat) returns (m: nat)
    requires WholeSteps(c, e, s) && BitAnd(x, c.subpageSize - 1) == 0
    ensures x == Times(m, e.size)
  {
    AlignedProduct(x, c.subpageShift);
    var a := ShiftRight(x, c.subpageShift);
    TimesIsProduct(a, c.subpageSize);
    TimesTimes(a, s, e.size);
    m := a * s;
  }

  lemma ModOfRest(p: nat, h: nat, d: nat, col: nat)
    requires d > 0 && (p * (h * d) + col) % d == 0
    ensures col % d == 0
  {
    assert p * (h * d) == (p * h) * d;
    ModOfSum(p * h, col, d);
  }

  /** The column of a subpage-aligned offset is subpage-aligned. */
  lemma AlignedColumn(c: Config, to: nat)
    requires BitAnd(to, c.subpageSize - 1) == 0
    ensures BitAnd(ColOf(c, to), c.subpageSize - 1) == 0
  {
    var h, col := Pow2(c.pageShift - c.subpageShift), ColOf(c, to);
    assert c.ws == h * c.subpageSize by { Pow2Add(c.pageShift - c.subpageShift, c.subpageShift); }
    assert to == PageOf(c, to) * c.ws + col by { ColumnParts(to, c.pageShift, c.ws); }
    assert to % c.subpageSize == 0 by { MaskAndShift(to, c.subpageShift); }
    ModOfRest(PageOf(c, to), h, c.subpageSize, col);
    assert BitAnd(col, c.subpageSize - 1) == col % c.subpageSize by { MaskAndShift(col, c.subpageShift); }
  }

  lemma ApplyIsWrite(c: Config, e: Event, cells: seq<Page>)
    requires ValidCells(c, cells) && PlainWrite(c, |cells|, e)
    ensures Apply(c, e, cells) == ApplyWrite(c, e, cells, e.req.to, e.req.data, e.req.mode, NoOob)
  {
  }

  /** The byte at offset x is the write's, if that covers it, and as it was if not. */
  ghost predicate ByteNext(c: Config, n: nat, e: Event, x: int, b: byte, b': byte) {
    && PlainWrite(c, n, e)
    && (e.req.to <= x < e.req.to + |e.req.data| ==> b' == e.req.data[x - e.req.to])
    && (!(e.req.to <= x < e.req.to + |e.req.data|) ==> b' == b)
  }

  /** One write, byte by byte: its own bytes are in, all others are as they were. */
  lemma OneWriteByte(c: Config, e: Event, cells: seq<Page>, q: nat, j: nat, x: int, cells': seq<Page>)
    requires StoresData(c) && ValidCells(c, cells) && PlainWrite(c, |cells|, e) && q < |cells| && j < c.ws && x == Offset(c.ws, q, j)
    requires ErasedTarget(c, cells, e.req.to, |e.req.data|) && cells' == Apply(c, e, cells).cells
    ensures ByteNext(c, |cells|, e, x, cells[q][j], cells'[q][j])
  {
    var p, col, w := PlainWrites(c, e, cells);
    PlainByte(c, e, cells, p, col, w, q, j, x);
    if e.req.to <= x < e.req.to + |e.req.data| {
      ErasedByte(c, cells, e.req.to, |e.req.data|, q, j, e.req.data[x - e.req.to]);
    }
  }

  /** The byte at offset x is ANDed with the write's, if that covers it, and as it was if not. */
  ghost predicate ByteAnded(c: Config, n: nat, e: Event, x: int, b: byte, b': byte) {
    && PlainWrite(c, n, e)
    && (e.req.to <= x < e.req.to + |e.req.data| ==> b' == b & e.req.data[x - e.req.to])
    && (!(e.req.to <= x < e.req.to + |e.req.data|) ==> b' == b)
  }

  /** What a plain write writes, and where */
  ghost predicate PlainPages(c: Config, e: Event, cells: seq<Page>, p: nat, col: nat, w: WriteOut) {
    && ValidCells(c, cells) && PlainWrite(c, |cells|, e)
    && col < c.ws && |e.req.data| <= Room(c.ws, |cells|, p, col) && p * c.ws + col == e.req.to
    && w == WritePages(c, e.env, cells, 0, p, col, e.req.data, e.req.mode, NoOob, Blank(c.oobSize)) && w.done == |e.req.data|
  }

  lemma PlainWrites(c: Config, e: Event, cells: seq<Page>) returns (p: nat, col: nat, w: WriteOut)
    requires ValidCells(c, cells) && PlainWrite(c, |cells|, e)
    ensures PlainPages(c, e, cells, p, col, w) && Apply(c, e, cells).cells == w.cells
  {
    RequestFits(c, |cells|, e.req.to, |e.req.data|);
    p, col := PageOf(c, e.req.to), ColOf(c, e.req.to);
    w := WritePages(c, e.env, cells, 0, p, col, e.req.data, e.req.mode, NoOob, Blank(c.oobSize));
    AllDone(c, e.env, cells, 0, p, col, e.req.data, e.req.mode, NoOob, Blank(c.oobSize));
  }

  lemma PlainByte(c: Config, e: Event, cells: seq<Page>, p: nat, col: nat, w: WriteOut, q: nat, j: nat, x: int)
    requires PlainPages(c, e, cells, p, col, w) && StoresData(c) && q < |cells| && j < c.ws && x == Offset(c.ws, q, j)
    ensures ByteAnded(c, |cells|, e, x, cells[q][j], w.cells[q][j])
  {
    AllWritten(c, e.env, cells, p, col, e.req.to, e.req.data, e.req.mode, q, j, x, w);
  }

  /** Every byte of the device after a write that was carried out as a whole */
  lemma AllWritten(c: Config, env: Env, cells: seq<Page>, p: nat, col: nat, to: nat, data: seq<byte>, mode: Mode, q: nat, j: nat,
                   x: int, w: WriteOut)
    requires ValidEnv(c, env) && ValidCells(c, cells) && q < |cells| && j < c.ws && x == Offset(c.ws, q, j)
    requires col < c.ws && 0 < |data| <= Room(c.ws, |cells|, p, col) && p * c.ws + col == to && StoresData(c)
    requires w == WritePages(c, env, cells, 0, p, col, data, mode, NoOob, Blank(c.oobSize)) && w.done == |data|
    ensures to <= x < to + |data| ==> w.cells[q][j] == cells[q][j] & data[x - to]
    ensures !(to <= x < to + |data|) ==> w.cells[q][j] == cells[q][j]
  {
    OffsetIs(c.ws, q, j);
    WrittenAt(c, env, cells, p, col, to, data, mode, q, j, x, w);
  }

  lemma ErasedByte(c: Config, cells: seq<Page>, to: nat, len: nat, q: nat, j: nat, b: byte)
    requires ValidCells(c, cells) && ErasedTarget(c, cells, to, len) && q < |cells| && j < c.ws && Covers(c.ws, to, len, q, j)
    ensures cells[q][j] & b == b
  {
    AndAbsorb(b, ERASED);
  }

  /** Without program failures a write is complete. */
  lemma NoFailures(c: Config, e: Event, cells: seq<Page>)
    requires ValidCells(c, cells) && PlainWrite(c, |cells|, e)
    ensures Apply(c, e, cells).ret.Ok? && Apply(c, e, cells).count == |e.req.data|
  {
    RequestFits(c, |cells|, e.req.to, |e.req.data|);
    AllDone(c, e.env, cells, 0, PageOf(c, e.req.to), ColOf(c, e.req.to), e.req.data, e.req.mode, NoOob, Blank(c.oobSize));
  }

  lemma {:induction false} AllDone(c: Config, env: Env, cells: seq<Page>, k: nat, p: nat, col: nat, data: seq<byte>,
                                   mode: Mode, ow: OobWrite, spare: seq<byte>)
    requires ValidEnv(c, env) && ValidCells(c, cells) && |spare| == c.oobSize
    requires col < c.ws && 0 < |data| <= Room(c.ws, |cells|, p, col) && OobFits(c, mode, ow)
    requires forall i: nat :: !ProgFails(env, i)
    ensures WritePages(c, env, cells, k, p, col, data, mode, ow, spare).done == |data|
    decreases |data|
  {
    var bytes := Min(c.ws - col, |data|);
    var image := TurnImage(c, col, data[..bytes], mode, ow, spare);
    var cells' := Program(c, cells, p, image.bits, env, k);
    assert !ProgFails(env, k);
    if bytes == |data| {
      WriteLast(c, env, cells, k, p, col, data, bytes, mode, ow, spare, image, cells');
    } else {
      var data', ow' := data[bytes..], OobRest(c, mode, ow);
      WriteMore(c, env, cells, k, p, col, data, bytes, mode, ow, spare, image, cells', data', ow');
      AllDone(c, env, cells', k + 1, p + 1, 0, data', mode, ow', image.oob);
    }
  }

  /** One write keeps every clean page clean. */
  lemma OneWriteClean(c: Config, ecc: Ecc, s: nat, e: Event, cells: seq<Page>, q: nat)
    requires SwDevice(c, ecc) && GoodCode(ecc) && WholeSteps(c, ecc, s)
    requires ValidCells(c, cells) && PlainWrite(c, |cells|, e) && q < |cells| && CleanPage(ecc)(cells[q])
    requires ErasedTarget(c, cells, e.req.to, |e.req.data|)
    ensures CleanPage(ecc)(Apply(c, e, cells).cells[q])
  {
    var to, data := e.req.to, e.req.data;
    var p, col := PageOf(c, to), ColOf(c, to);
    RequestFits(c, |cells|, to, |data|);
    CleanTurns(c, ecc);
    AlignedColumn(c, to);
    var m := AlignedIsSteps(c, ecc, s, col);
    var l := AlignedIsSteps(c, ecc, s, |data|);
    OffsetIs(c.ws, p, col);
    TargetIsBlank(c, cells, to, |data|, p, col, |data|);
    WriteKeeps(c, CleanPage(ecc), ecc.size, ecc.steps, e.env, cells, 0, p, col, data, e.req.mode, Blank(c.oobSize), m, l, q);
  }

  // ---------------------------------------------------------------- runs of writes, then a read

  predicate Disjoint(to: nat, len: nat, to': nat, len': nat) {
    to + len <= to' || to' + len' <= to
  }

  /** The writes of a run are ordinary, go to erased bytes, and do not overlap. */
  ghost predicate ReadyToWrite(c: Config, cells: seq<Page>, es: seq<Event>)
    requires ValidCells(c, cells)
  {
    && (forall i :: 0 <= i < |es| ==>
          PlainWrite(c, |cells|, es[i]) && ErasedTarget(c, cells, es[i].req.to, |es[i].req.data|))
    && (forall i, k :: 0 <= i < k < |es| ==>
          PlainWrite(c, |cells|, es[i]) && PlainWrite(c, |cells|, es[k])
          && Disjoint(es[i].req.to, |es[i].req.data|, es[k].req.to, |es[k].req.data|))
  }

  /** The byte at column j of page q after the writes of a run, if it was b before. */
  ghost function ByteAfter(c: Config, n: nat, es: seq<Event>, q: nat, j: nat, b: byte): byte
    requires forall i :: 0 <= i < |es| ==> PlainWrite(c, n, es[i])
  {
    if es == [] then b
    else assert PlainWrite(c, n, es[0]); if Covers(c.ws, es[0].req.to, |es[0].req.data|, q, j) then
      ByteAfter(c, n, es[1..], q, j, es[0].req.data[Offset(c.ws, q, j) - es[0].req.to])
    else ByteAfter(c, n, es[1..], q, j, b)
  }

  /** Event e is a write that covers column j of page q, and the byte it has for it. */
  predicate CoveredBy(ws: nat, e: Event, q: nat, j: nat) {
    e.req.Write? && Covers(ws, e.req.to, |e.req.data|, q, j)
  }

  function ByteFor(ws: nat, e: Event, q: nat, j: nat): byte
    requires CoveredBy(ws, e, q, j)
  {
    e.req.data[Offset(ws, q, j) - e.req.to]
  }

  /** What a byte is after a run: the byte of the write that covers it, or what it was. */
  ghost predicate ByteIs(ws: nat, es: seq<Event>, q: nat, j: nat, before: byte, now: byte) {
    && (forall i :: 0 <= i < |es| && CoveredBy(ws, es[i], q, j) ==> now == ByteFor(ws, es[i], q, j))
    && ((forall i :: 0 <= i < |es| ==> !CoveredBy(ws, es[i], q, j)) ==> now == before)
  }

  lemma {:induction false} Uncovered(c: Config, n: nat, es: seq<Event>, q: nat, j: nat, b: byte)
    requires forall i :: 0 <= i < |es| ==> PlainWrite(c, n, es[i])
    requires forall i :: 0 <= i < |es| ==> !CoveredBy(c.ws, es[i], q, j)
    ensures ByteAfter(c, n, es, q, j, b) == b
    decreases |es|
  {
    if es != [] {
      assert !CoveredBy(c.ws, es[0], q, j);
      Uncovered(c, n, es[1..], q, j, b);
    }
  }

  /** No two of the writes cover the same byte. */
  ghost predicate NoOverlap(ws: nat, es: seq<Event>, q: nat, j: nat) {
    forall i, k :: 0 <= i < k < |es| ==> !(CoveredBy(ws, es[i], q, j) && CoveredBy(ws, es[k], q, j))
  }

  /** Of writes that do not overlap, the one that covers a byte decides it. */
  lemma {:induction false} Covered(c: Config, n: nat, es: seq<Event>, q: nat, j: nat, b: byte, i: nat)
    requires forall i :: 0 <= i < |es| ==> PlainWrite(c, n, es[i])
    requires NoOverlap(c.ws, es, q, j) && i < |es| && CoveredBy(c.ws, es[i], q, j)
    ensures ByteAfter(c, n, es, q, j, b) == ByteFor(c.ws, es[i], q, j)
    decreases |es|
  {
    if i == 0 {
      Uncovered(c, n, es[1..], q, j, ByteFor(c.ws, es[0], q, j));
    } else {
      assert !CoveredBy(c.ws, es[0], q, j);
      Covered(c, n, es[1..], q, j, b, i - 1);
    }
  }

  /** The fold over the writes, byte by byte */
  lemma ByteAfterIs(c: Config, cells: seq<Page>, es: seq<Event>, q: nat, j: nat, b: byte)
    requires ValidCells(c, cells) && ReadyToWrite(c, cells, es)
    ensures ByteIs(c.ws, es, q, j, b, ByteAfter(c, |cells|, es, q, j, b))
  {
    assert NoOverlap(c.ws, es, q, j);
    forall i | 0 <= i < |es| && CoveredBy(c.ws, es[i], q, j)
      ensures ByteAfter(c, |cells|, es, q, j, b) == ByteFor(c.ws, es[i], q, j)
    {
      Covered(c, |cells|, es, q, j, b, i);
    }
    if forall i :: 0 <= i < |es| ==> !CoveredBy(c.ws, es[i], q, j) {
      Uncovered(c, |cells|, es, q, j, b);
    }
  }

  /** The targets of the later writes are still erased after the first. */
  lemma StillErased(c: Config, cells: seq<Page>, es: seq<Event>, cells': seq<Page>, k: nat)
    requires StoresData(c) && ValidCells(c, cells) && ReadyToWrite(c, cells, es) && 0 < k < |es|
    requires cells' == Apply(c, es[0], cells).cells
    ensures ErasedTarget(c, cells', es[k].req.to, |es[k].req.data|)
  {
    var to, len := es[k].req.to, |es[k].req.data|;
    forall q, j | 0 <= q < |cells'| && 0 <= j < c.ws && Covers(c.ws, to, len, q, j) ensures cells'[q][j] == ERASED {
      OneWriteByte(c, es[0], cells, q, j, Offset(c.ws, q, j), cells');
    }
  }

  lemma StillReady(c: Config, cells: seq<Page>, es: seq<Event>, cells': seq<Page>)
    requires StoresData(c) && ValidCells(c, cells) && ReadyToWrite(c, cells, es) && es != []
    requires cells' == Apply(c, es[0], cells).cells
    ensures ReadyToWrite(c, cells', es[1..])
  {
    forall i | 0 <= i < |es| - 1
      ensures PlainWrite(c, |cells'|, es[1..][i]) && ErasedTarget(c, cells', es[1..][i].req.to, |es[1..][i].req.data|)
    {
      StillErased(c, cells, es, cells', i + 1);
    }
  }

  /** A run of plain writes to erased bytes can start, and page q is clean. */
  ghost predicate CanRun(c: Config, ecc: Ecc, s: nat, cells: seq<Page>, es: seq<Event>, q: nat, j: nat) {
    && SwDevice(c, ecc) && GoodCode(ecc) && WholeSteps(c, ecc, s) && ValidCells(c, cells) && ReadyToWrite(c, cells, es)
    && q < |cells| && j < c.ws && CleanPage(ecc)(cells[q])
  }

  /** After it the page is clean, and its byte j the fold over the writes. */
  ghost predicate RunsTo(c: Config, ecc: Ecc, cells: seq<Page>, es: seq<Event>, q: nat, j: nat) {
    && ValidCells(c, cells) && q < |cells| && j < c.ws
    && (forall i :: 0 <= i < |es| ==> PlainWrite(c, |cells|, es[i]))
    && ValidEvents(c, |cells|, es) && CleanPage(ecc)(RunCells(c, cells, es)[q])
    && RunCells(c, cells, es)[q][j] == ByteAfter(c, |cells|, es, q, j, cells[q][j])
  }

  lemma {:induction false} RunFolds(c: Config, ecc: Ecc, s: nat, cells: seq<Page>, es: seq<Event>, q: nat, j: nat)
    ensures CanRun(c, ecc, s, cells, es, q, j) ==> RunsTo(c, ecc, cells, es, q, j)
    decreases |es|
  {
    if CanRun(c, ecc, s, cells, es, q, j) && es != [] {
      var cells' := FirstOfRun(c, ecc, s, cells, es, q, j);
      RunFolds(c, ecc, s, cells', es[1..], q, j);
      RunsOn(c, ecc, cells, es, q, j, cells');
    }
  }

  /** What the first write of a run leaves */
  ghost predicate LeavesCells(c: Config, cells: seq<Page>, es: seq<Event>, q: nat, j: nat, cells': seq<Page>) {
    && es != [] && ValidCells(c, cells) && ValidCells(c, cells') && q < |cells| == |cells'| && j < c.ws
    && (forall i :: 0 <= i < |es| ==> PlainWrite(c, |cells|, es[i]))
    && cells' == Apply(c, es[0], cells).cells && ByteNext(c, |cells|, es[0], Offset(c.ws, q, j), cells[q][j], cells'[q][j])
  }

  lemma FirstOfRun(c: Config, ecc: Ecc, s: nat, cells: seq<Page>, es: seq<Event>, q: nat, j: nat) returns (cells': seq<Page>)
    requires CanRun(c, ecc, s, cells, es, q, j) && es != []
    ensures CanRun(c, ecc, s, cells', es[1..], q, j) && LeavesCells(c, cells, es, q, j, cells')
  {
    cells' := Apply(c, es[0], cells).cells;
    StoresInPlace(c, ecc);
    OneWriteByte(c, es[0], cells, q, j, Offset(c.ws, q, j), cells');
    OneWriteClean(c, ecc, s, es[0], cells, q);
    StillReady(c, cells, es, cells');
  }

  lemma RunsOn(c: Config, ecc: Ecc, cells: seq<Page>, es: seq<Event>, q: nat, j: nat, cells': seq<Page>)
    ensures LeavesCells(c, cells, es, q, j, cells') && RunsTo(c, ecc, cells', es[if es == [] then 0 else 1..], q, j) ==>
              RunsTo(c, ecc, cells, es, q, j)
  {
    if LeavesCells(c, cells, es, q, j, cells') && RunsTo(c, ecc, cells', es[1..], q, j) {
      FoldCons(c, |cells|, es, q, j, Offset(c.ws, q, j), cells[q][j], cells'[q][j]);
    }
  }

  /** The fold over the bytes goes along with the run. */
  lemma FoldCons(c: Config, n: nat, es: seq<Event>, q: nat, j: nat, x: int, b: byte, b': byte)
    requires es != [] && (forall i :: 0 <= i < |es| ==> PlainWrite(c, n, es[i])) && x == Offset(c.ws, q, j)
    requires ByteNext(c, n, es[0], x, b, b')
    ensures ByteAfter(c, n, es, q, j, b) == ByteAfter(c, n, es[1..], q, j, b')
  {
  }

  /** After a run of writes every byte is the one written to it, or as before, and clean pages are clean. */
  lemma RunOfWrites(c: Config, ecc: Ecc, s: nat, cells: seq<Page>, es: seq<Event>, q: nat, j: nat)
    requires SwDevice(c, ecc) && GoodCode(ecc) && WholeSteps(c, ecc, s)
    requires ValidCells(c, cells) && ReadyToWrite(c, cells, es)
    requires q < |cells| && j < c.ws && CleanPage(ecc)(cells[q])
    ensures ValidEvents(c, |cells|, es)
    ensures CleanPage(ecc)(RunCells(c, cells, es)[q])
    ensures ByteIs(c.ws, es, q, j, cells[q][j], RunCells(c, cells, es)[q][j])
  {
    RunFolds(c, ecc, s, cells, es, q, j);
    ByteAfterIs(c, cells, es, q, j, cells[q][j]);
  }

  lemma {:induction false} RangeFaithful(c: Config, cells: seq<Page>, p: nat, col: nat, len: nat)
    requires ValidCells(c, cells) && col < c.ws && 0 < len <= Room(c.ws, |cells|, p, col)
    requires forall q :: p <= q <= LastPage(c.ws, p, col, len) && q < |cells| ==> Faithful(c, cells[q])
    ensures FaithfulAhead(c, cells, p, col, len)
    decreases len
  {
    if c.ws - col < len {
      RangeFaithful(c, cells, p + 1, 0, len - (c.ws - col));
    }
  }

  /**
   Disjoint aligned writes to erased bytes of clean pages, then a read of any range of clean pages: the
   read delivers each byte as written, or as it was before the writes, with no failed or corrected step.
   */
  lemma WritesThenRead(c: Config, ecc: Ecc, s: nat, cells: seq<Page>, es: seq<Event>, from: nat, len: nat, mode: Mode)
    requires SwDevice(c, ecc) && GoodCode(ecc) && WholeSteps(c, ecc, s)
    requires ValidCells(c, cells) && ReadyToWrite(c, cells, es) && !mode.Raw?
    requires len > 0 && InDevice(c, |cells|, from, len)
    requires ColOf(c, from) < c.ws
    requires forall q :: PageOf(c, from) <= q <= LastPage(c.ws, PageOf(c, from), ColOf(c, from), len) && q < |cells| ==>
               CleanPage(ecc)(cells[q])
    ensures ValidEvents(c, |cells|, es) && len <= Room(c.ws, |cells|, PageOf(c, from), ColOf(c, from))
    ensures var r := ReadPages(c, RunCells(c, cells, es), PageOf(c, from), ColOf(c, from), len, mode, NoOobRead);
            && r.failed == 0 && r.corrected == 0
            && forall q, j :: 0 <= q < |cells| && 0 <= j < c.ws && Covers(c.ws, from, len, q, j) ==>
                 ByteIs(c.ws, es, q, j, cells[q][j], r.data[Offset(c.ws, q, j) - from])
  {
    var p, col := PageOf(c, from), ColOf(c, from);
    RequestFits(c, |cells|, from, len);
    var final := RunCells(c, cells, es);
    forall q | p <= q <= LastPage(c.ws, p, col, len) && q < |cells| ensures Faithful(c, final[q]) {
      RunOfWrites(c, ecc, s, cells, es, q, 0);
      CleanIsFaithful(c, ecc, final[q]);
    }
    RangeFaithful(c, final, p, col, len);
    FaithfulRead(c, final, p, col, len, mode);
    forall q, j | 0 <= q < |cells| && 0 <= j < c.ws && Covers(c.ws, from, len, q, j)
      ensures ByteIs(c.ws, es, q, j, cells[q][j],
                     ReadPages(c, final, p, col, len, mode, NoOobRead).data[Offset(c.ws, q, j) - from])
    {
      ReadBackByte(c, ecc, s, cells, es, from, len, mode, q, j);
    }
  }

  /** Erased pages are clean, and hold 0xFF. */
  lemma ErasedPage(c: Config, ecc: Ecc, page: Page, j: nat)
    requires SwDevice(c, ecc) && GoodCode(ecc) && page == Blank(c.ws + c.oobSize) && j < c.ws
    ensures CleanPage(ecc)(page) && page[j] == ERASED
  {
    BlankPageClean(ecc, page, c.ws + c.oobSize);
    BlankAt(c.ws + c.oobSize, j);
  }

  lemma BlankPageClean(ecc: Ecc, page: Page, n: nat)
    requires GoodCode(ecc) && n == ecc.ws + ecc.oobSize && page == Blank(n)
    ensures CleanPage(ecc)(page)
  {
    BlankClean(ecc, page);
  }

  /** The pages of a range are erased. */
  ghost predicate ErasedRange(c: Config, cells: seq<Page>, from: nat, len: nat)
    requires ColOf(c, from) < c.ws && len > 0
  {
    forall q :: PageOf(c, from) <= q <= LastPage(c.ws, PageOf(c, from), ColOf(c, from), len) && q < |cells| ==>
      cells[q] == Blank(c.ws + c.oobSize)
  }

  /** Every byte of the range is the one written to it, and 0xFF where none was. */
  ghost predicate ReadsWritten(c: Config, n: nat, es: seq<Event>, from: nat, len: nat, data: seq<byte>)
    requires |data| == len
  {
    forall q, j :: 0 <= q < n && 0 <= j < c.ws && Covers(c.ws, from, len, q, j) ==>
      ByteIs(c.ws, es, q, j, ERASED, data[Offset(c.ws, q, j) - from])
  }

  /** On erased pages: the read returns the bytes written, 0xFF elsewhere, and reports nothing. */
  lemma ErasedThenRead(c: Config, ecc: Ecc, s: nat, cells: seq<Page>, es: seq<Event>, from: nat, len: nat, mode: Mode)
    requires SwDevice(c, ecc) && GoodCode(ecc) && WholeSteps(c, ecc, s)
    requires ValidCells(c, cells) && ReadyToWrite(c, cells, es) && !mode.Raw?
    requires len > 0 && InDevice(c, |cells|, from, len) && ColOf(c, from) < c.ws && ErasedRange(c, cells, from, len)
    ensures ValidEvents(c, |cells|, es) && len <= Room(c.ws, |cells|, PageOf(c, from), ColOf(c, from))
    ensures var r := ReadPages(c, RunCells(c, cells, es), PageOf(c, from), ColOf(c, from), len, mode, NoOobRead);
            r.failed == 0 && r.corrected == 0 && ReadsWritten(c, |cells|, es, from, len, r.data)
  {
    var p, col := PageOf(c, from), ColOf(c, from);
    RequestFits(c, |cells|, from, len);
    forall q | p <= q <= LastPage(c.ws, p, col, len) && q < |cells| ensures CleanPage(ecc)(cells[q]) {
      ErasedPage(c, ecc, cells[q], 0);
    }
    WritesThenRead(c, ecc, s, cells, es, from, len, mode);
    var r := ReadPages(c, RunCells(c, cells, es), p, col, len, mode, NoOobRead);
    forall q, j | 0 <= q < |cells| && 0 <= j < c.ws && Covers(c.ws, from, len, q, j)
      ensures ByteIs(c.ws, es, q, j, ERASED, r.data[Offset(c.ws, q, j) - from])
    {
      OffsetIs(c.ws, q, j);
      SameByte(c, p, col, from, q, j, len);
      InRange(c, p, col, len, q, j);
      ErasedPage(c, ecc, cells[q], j);
    }
  }

  lemma ReadBackByte(c: Config, ecc: Ecc, s: nat, cells: seq<Page>, es: seq<Event>, from: nat, len: nat, mode: Mode,
                     q: nat, j: nat)
    requires SwDevice(c, ecc) && GoodCode(ecc) && WholeSteps(c, ecc, s)
    requires ValidCells(c, cells) && ReadyToWrite(c, cells, es) && ValidEvents(c, |cells|, es) && !mode.Raw?
    requires len > 0 && InDevice(c, |cells|, from, len)
    requires ColOf(c, from) < c.ws && len <= Room(c.ws, |cells|, PageOf(c, from), ColOf(c, from))
    requires q < |cells| && j < c.ws && Covers(c.ws, from, len, q, j)
    requires forall i :: PageOf(c, from) <= i <= LastPage(c.ws, PageOf(c, from), ColOf(c, from), len) && i < |cells| ==>
               CleanPage(ecc)(cells[i])
    requires FaithfulAhead(c, RunCells(c, cells, es), PageOf(c, from), ColOf(c, from), len)
    ensures ByteIs(c.ws, es, q, j, cells[q][j],
                   ReadPages(c, RunCells(c, cells, es), PageOf(c, from), ColOf(c, from), len, mode, NoOobRead)
                   .data[Offset(c.ws, q, j) - from])
  {
    var p, col := PageOf(c, from), ColOf(c, from);
    RequestFits(c, |cells|, from, len);
    OffsetIs(c.ws, q, j);
    SameByte(c, p, col, from, q, j, len);
    InRange(c, p, col, len, q, j);
    RunOfWrites(c, ecc, s, cells, es, q, j);
    DeliveredAt(c, RunCells(c, cells, es), p, col, from, len, mode, q, j);
  }

  /** Where in the delivered data a byte of the device is */
  lemma DeliveredAt(c: Config, cells: seq<Page>, p: nat, col: nat, from: nat, len: nat, mode: Mode, q: nat, j: nat)
    requires ValidCells(c, cells) && !mode.Raw? && col < c.ws && 0 < len <= Room(c.ws, |cells|, p, col)
    requires from == p * c.ws + col && FaithfulAhead(c, cells, p, col, len)
    requires q < |cells| && j < c.ws && Covers(c.ws, from, len, q, j)
    ensures ReadPages(c, cells, p, col, len, mode, NoOobRead).data[Offset(c.ws, q, j) - from] == cells[q][j]
  {
    OffsetIs(c.ws, q, j);
    SameByte(c, p, col, from, q, j, len);
    FaithfulByte(c, cells, p, col, len, mode, q, j);
  }

  /** A byte of a stretch lies in one of its pages. */
  lemma {:induction false} InRange(c: Config, p: nat, col: nat, len: nat, q: nat, j: nat)
    requires col < c.ws && len > 0 && j < c.ws && Written(c.ws, p, col, len, q, j)
    ensures p <= q <= LastPage(c.ws, p, col, len)
    decreases len
  {
    if p < q {
      DistanceFrom(c.ws, p + 1, 0, q, j);
      InRange(c, p + 1, 0, len - (c.ws - col), q, j);
    }
  }
}

/** The same of the driver itself, cache and all. */
module DriverReadBack {
  import opened Bytes
  import opened Geometry
  import opened OobLayout
  import opened NandSpec
  import opened NandRequests
  import opened PageCache
  import opened NandDriver
  import opened NandRuns
  import opened WriteLaws
  import opened SwEcc
  import opened SwNand
  import opened WriteReadBack

  /** What an ordinary write does to the flash depends on the request and the hardware alone. */
  lemma SameWrite(c: Config, e: Event, e': Event, cells: seq<Page>)
    requires ValidCells(c, cells) && PlainWrite(c, |cells|, e) && ValidEvent(c, |cells|, e')
    requires e'.req == e.req && e'.env == e.env
    ensures PlainWrite(c, |cells|, e') && Apply(c, e', cells) == Apply(c, e, cells)
  {
    ApplyIsWrite(c, e, cells);
    ApplyIsWrite(c, e', cells);
  }

  /** An ordinary write drops the page in the cache or does not reach it, and pagebuf after it. */
  ghost predicate KeepPlain(c: Config, n: nat, cached: int, e: Event)
    requires PlainWrite(c, n, e)
  {
    RequestFits(c, n, e.req.to, |e.req.data|);
    KeepWrite(c, e.env, cached, e.req.to, |e.req.data|, e.req.mode, NoOob)
  }

  ghost function BufAfterPlain(c: Config, n: nat, cached: int, e: Event): (r: int)
    requires PlainWrite(c, n, e)
    ensures r == -1 || r == cached
  {
    RequestFits(c, n, e.req.to, |e.req.data|);
    BufAfterWrite(c, e.env, cached, e.req.to, |e.req.data|, e.req.mode, NoOob)
  }

  /** Every write of the plan does so, with the pagebuf the ones before it leave. */
  ghost predicate KeepPlan(c: Config, n: nat, cached: int, plan: seq<Event>)
    requires forall i :: 0 <= i < |plan| ==> PlainWrite(c, n, plan[i])
    decreases |plan|
  {
    plan == []
    || (assert PlainWrite(c, n, plan[0]);
        KeepPlain(c, n, cached, plan[0]) && KeepPlan(c, n, BufAfterPlain(c, n, cached, plan[0]), plan[1..]))
  }

  /** That is so of every plan if the cached page starts below 2 GiB, or there is none. */
  lemma {:induction false} LowPlanKept(c: Config, n: nat, cached: int, plan: seq<Event>)
    requires forall i :: 0 <= i < |plan| ==> PlainWrite(c, n, plan[i])
    requires -1 <= cached && (cached == -1 || cached * c.ws < 0x8000_0000)
    ensures KeepPlan(c, n, cached, plan)
    decreases |plan|
  {
    if plan != [] {
      var e := plan[0];
      assert PlainWrite(c, n, e);
      RequestFits(c, n, e.req.to, |e.req.data|);
      LowPageKept(c, e.env, cached, e.req.to, |e.req.data|, e.req.mode, NoOob);
      LowPlanKept(c, n, BufAfterPlain(c, n, cached, e), plan[1..]);
    }
  }

  /** One ordinary write: it reports success, and does to the flash what it means. */
  method WriteOne(chip: NandChip, todo: Event) returns (a: Answer)
    requires chip.Valid() && chip.CacheCoherent() && PlainWrite(chip.c, |chip.cells|, todo)
    requires KeepPlain(chip.c, |chip.cells|, chip.pagebuf, todo)
    modifies chip, chip.buffers
    ensures chip.Valid() && chip.CacheCoherent() && chip.cells == Apply(chip.c, todo, old(chip.cells)).cells
    ensures chip.pagebuf == BufAfterPlain(chip.c, |chip.cells|, old(chip.pagebuf), todo)
    ensures a.ret.Ok? && a.count == |todo.req.data|
  {
    ghost var cells0, cached := chip.cells, chip.pagebuf;
    var e;
    a, e := Serve(chip, todo.req, todo.env);
    SameWrite(chip.c, todo, e, cells0);
    PlainServed(chip.c, cells0, cached, todo, e, a);
  }

  lemma PlainServed(c: Config, cells: seq<Page>, cached: int, todo: Event, e: Event, a: Answer)
    requires ValidCells(c, cells) && PlainWrite(c, |cells|, todo) && PlainWrite(c, |cells|, e)
    requires e.req == todo.req && e.env == todo.env && e.cached == cached && Apply(c, e, cells) == Apply(c, todo, cells)
    ensures KeepPlain(c, |cells|, cached, todo) ==> SafeEvent(c, cells, e)
    ensures NextCached(c, cells, e) == BufAfterPlain(c, |cells|, cached, todo)
    ensures Agrees(c, cells, e, a) ==> a.ret.Ok? && a.count == |todo.req.data|
  {
    NoFailures(c, todo, cells);
  }

  /** The writes of a plan, one after the other: all report success. */
  method WriteAll(chip: NandChip, ecc: Ecc, plan: seq<Event>)
    requires chip.Valid() && chip.CacheCoherent()
    requires SwDevice(chip.c, ecc) && ReadyToWrite(chip.c, chip.cells, plan)
    requires KeepPlan(chip.c, |chip.cells|, chip.pagebuf, plan)
    modifies chip, chip.buffers
    ensures chip.Valid() && chip.CacheCoherent()
    ensures ValidEvents(chip.c, |old(chip.cells)|, plan) && chip.cells == RunCells(chip.c, old(chip.cells), plan)
    decreases |plan|
  {
    if plan != [] {
      ghost var cells0 := chip.cells;
      assert PlainWrite(chip.c, |cells0|, plan[0]);
      var a := WriteOne(chip, plan[0]);
      assert a.ret.Ok? && a.count == |plan[0].req.data|;
      StoresInPlace(chip.c, ecc);
      StillReady(chip.c, cells0, plan, chip.cells);
      WriteAll(chip, ecc, plan[1..]);
    }
  }

  /**
   Disjoint aligned writes to erased bytes and then a read of any range of erased pages: the driver returns
   the bytes written, 0xFF elsewhere, and 0.
   */
  method WriteThenRead(chip: NandChip, ecc: Ecc, ghost s: nat, plan: seq<Event>, call: ReadCall, from: nat, len: nat,
                       mode: Mode)
    returns (a: Answer)
    requires chip.Valid() && chip.CacheCoherent()
    requires SwDevice(chip.c, ecc) && GoodCode(ecc) && WholeSteps(chip.c, ecc, s)
    requires ReadyToWrite(chip.c, chip.cells, plan) && KeepPlan(chip.c, |chip.cells|, chip.pagebuf, plan)
    requires !mode.Raw? && (call.NandRead? ==> mode.Place?)
    requires len > 0 && InDevice(chip.c, |chip.cells|, from, len)
    requires ColOf(chip.c, from) < chip.c.ws && ErasedRange(chip.c, chip.cells, from, len)
    modifies chip, chip.buffers
    ensures a.ret.Ok? && a.count == len == |a.data|
    ensures ReadsWritten(chip.c, |chip.cells|, plan, from, len, a.data)
  {
    ErasedReadable(chip.c, ecc, s, chip.cells, plan, from, len, mode);
    WriteAll(chip, ecc, plan);
    a := ReadPlain(chip, call, from, len, mode);
  }

  lemma ErasedReadable(c: Config, ecc: Ecc, s: nat, cells: seq<Page>, es: seq<Event>, from: nat, len: nat, mode: Mode)
    requires SwDevice(c, ecc) && GoodCode(ecc) && WholeSteps(c, ecc, s)
    requires ValidCells(c, cells) && ReadyToWrite(c, cells, es) && !mode.Raw?
    requires len > 0 && InDevice(c, |cells|, from, len) && ColOf(c, from) < c.ws && ErasedRange(c, cells, from, len)
    ensures ValidEvents(c, |cells|, es) && PlainReadable(c, RunCells(c, cells, es), from, len, mode)
    ensures ReadsWritten(c, |cells|, es, from, len, ReadPages(c, RunCells(c, cells, es), PageOf(c, from), ColOf(c, from), len,
                                                              mode, NoOobRead).data)
  {
    RequestFits(c, |cells|, from, len);
    ErasedThenRead(c, ecc, s, cells, es, from, len, mode);
  }

  /** A read inside the device of pages without failed or corrected steps */
  ghost predicate PlainReadable(c: Config, cells: seq<Page>, from: nat, len: nat, mode: Mode)
    requires ValidCells(c, cells)
  {
    && len > 0 && InDevice(c, |cells|, from, len) && ColOf(c, from) < c.ws && PageOf(c, from) < |cells|
    && len <= Room(c.ws, |cells|, PageOf(c, from), ColOf(c, from))
    && var u := ReadPages(c, cells, PageOf(c, from), ColOf(c, from), len, mode, NoOobRead);
       u.failed == 0 && u.corrected == 0
  }

  /** Such a read, through a coherent cache */
  method ReadPlain(chip: NandChip, call: ReadCall, from: nat, len: nat, mode: Mode) returns (a: Answer)
    requires chip.Valid() && chip.CacheCoherent() && !mode.Raw? && (call.NandRead? ==> mode.Place?)
    requires PlainReadable(chip.c, chip.cells, from, len, mode)
    modifies chip`selected, chip`pagebuf, chip`failed, chip`corrected, chip.buffers
    ensures a.ret.Ok? && a.count == len
    ensures a.data == ReadPages(chip.c, chip.cells, PageOf(chip.c, from), ColOf(chip.c, from), len, mode, NoOobRead).data
  {
    ghost var e := Event(Read(call, from, len, mode, NoOobRead), Steady(chip.c), Blank(chip.c.oobSize), chip.pagebuf);
    PlainReadServed(chip.c, chip.cells, e);
    a := ServeRead(chip, call, from, len, mode, NoOobRead, e);
  }

  /** A read of pages without failed or corrected steps keeps the cache, and is answered with its data and 0. */
  lemma PlainReadServed(c: Config, cells: seq<Page>, e: Event)
    requires ValidCells(c, cells) && ValidEvent(c, |cells|, e) && e.req.Read? && !e.req.mode.Raw? && e.req.oq.NoOobRead?
    requires PlainReadable(c, cells, e.req.from, e.req.len, e.req.mode)
    ensures SafeEvent(c, cells, e)
    ensures forall a: Answer :: Agrees(c, cells, e, a) ==>
              a.ret.Ok? && a.count == e.req.len
              && a.data == ReadPages(c, cells, PageOf(c, e.req.from), ColOf(c, e.req.from), e.req.len, e.req.mode, NoOobRead).data
  {
    RequestFits(c, |cells|, e.req.from, e.req.len);
    PlainReadKeeps(c, cells, PageOf(c, e.req.from), ColOf(c, e.req.from), e.req.len, e.req.mode);
  }

  /** Hardware that reports no failure */
  ghost function Steady(c: Config): (env: Env)
    ensures ValidEnv(c, env)
  {
    var page := Blank(c.ws + c.oobSize);
    Env(false, (k: nat) => false, (k: nat) => page, (k: nat) => false, (k: nat, i: nat) => page)
  }
}
