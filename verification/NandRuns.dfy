/** Requests of the MTD interface, and what a run of them means without the driver's cache. */
module NandRequests {
  import opened Bytes
  import opened Geometry
  import opened OobLayout
  import opened NandSpec
  import opened PageCache

  /** The two ways to nand_do_read_ops; nand_read answers a request of no bytes itself. */
  datatype ReadCall = NandRead | NandReadOob

  datatype Request =
    | Read(call: ReadCall, from: nat, len: nat, mode: Mode, oq: OobRead)
    | Write(to: nat, data: seq<byte>, mode: Mode, ow: OobWrite)
    | WriteSpare(to: nat, mode: Mode, offs: nat, oob: seq<byte>)
    | Erase(addr: nat, len: nat)
    | MarkBlock(ofs: nat)

  /** What the caller sees: the return code, retlen (fail_addr for an erase), and the bytes read. */
  datatype Answer = Answer(ret: Ret, count: int, data: seq<byte>, oob: seq<byte>)

  /** A request paired with the hardware's behaviour while it runs, and the staging buffer and pagebuf it found. */
  datatype Event = Event(req: Request, env: Env, staged: seq<byte>, cached: int)

  /** What the core asks of its callers: the OOB bytes of a read lie in the OOB area. nand_read has no mode and none of them. */
  ghost predicate WellFormed(c: Config, req: Request) {
    req.Read? ==> ReadFits(c, req.mode, req.oq) && (req.call.NandRead? ==> req.mode.Place? && req.oq.NoOobRead?)
  }

  ghost predicate ValidEvent(c: Config, n: nat, e: Event) {
    WellFormed(c, e.req) && ValidEnv(c, e.env) && |e.staged| == c.oobSize && -1 <= e.cached < n
  }

  /** A write that passes the tests has OOB bytes that fit. */
  lemma ChecksFit(c: Config, to: nat, len: nat, mode: Mode, ow: OobWrite, env: Env)
    requires WriteChecks(c, to, len, mode, ow, env).Ok?
    ensures OobFits(c, mode, ow)
  {
  }

  datatype Effect = Effect(cells: seq<Page>, ret: Ret, count: int)

  ghost function ApplyWrite(c: Config, e: Event, cells: seq<Page>, to: nat, data: seq<byte>, mode: Mode, ow: OobWrite)
    : (r: Effect)
    requires ValidEvent(c, |cells|, e) && ValidCells(c, cells)
    ensures ValidCells(c, r.cells)
  {
    if !InDevice(c, |cells|, to, |data|) then Effect(cells, EInval, 0)
    else if data == [] then Effect(cells, Ok, 0)
    else
      var ret := WriteChecks(c, to, |data|, mode, ow, e.env);
      if !ret.Ok? then Effect(cells, ret, 0)
      else
        RequestFits(c, |cells|, to, |data|);
        ChecksFit(c, to, |data|, mode, ow, e.env);
        var w := WritePages(c, e.env, cells, 0, PageOf(c, to), ColOf(c, to), data, mode, ow,
                            if ow.NoOob? then Blank(c.oobSize) else e.staged);
        Effect(w.cells, w.ret, w.done)
  }

  ghost function ApplyErase(c: Config, e: Event, cells: seq<Page>, addr: nat, len: nat): (r: Effect)
    requires ValidEvent(c, |cells|, e) && ValidCells(c, cells)
    ensures ValidCells(c, r.cells)
  {
    if !EraseAccepted(c, |cells|, addr, len) then Effect(cells, EInval, -1)
    else if !(len > 0 || addr < |cells| * c.ws) then Effect(cells, Bug, -1)
    else if e.env.protected then Effect(cells, EIo, -1)
    else
      EraseFits(c, |cells|, addr, len);
      var r := EraseBlocks(c, e.env, cells, 0, PageOf(c, addr), BlockCount(c, len));
      Effect(r.cells, r.ret, FailAddr(c, r.failPage))
  }

  ghost function ApplyMark(c: Config, e: Event, cells: seq<Page>, ofs: nat): (r: Effect)
    requires ValidEvent(c, |cells|, e) && ValidCells(c, cells)
    ensures ValidCells(c, r.cells)
  {
    if ofs > |cells| * c.ws then Effect(cells, EInval, 0)
    else if ofs == |cells| * c.ws then Effect(cells, Bug, 0)
    else
      OutOfDevice(c, |cells|, ofs);
      var r := MarkBad(c, e.env, cells, PageOf(c, ofs));
      Effect(r.cells, r.ret, 0)
  }

  /** The read gets as far as the read loop. */
  ghost predicate Enters(c: Config, n: nat, e: Event) {
    && e.req.Read? && InDevice(c, n, e.req.from, e.req.len) && (e.req.len > 0 || e.req.call.NandReadOob?)
    && e.req.from < n * c.ws
    && !Overruns(c, e.cached, PageOf(c, e.req.from), ColOf(c, e.req.from), e.req.len, e.req.mode, e.req.oq)
  }

  /** What a read that does not comes to */
  ghost function ReadExit(c: Config, n: nat, e: Event): Ret
    requires e.req.Read?
  {
    if !InDevice(c, n, e.req.from, e.req.len) then EInval
    else if e.req.len == 0 && e.req.call.NandRead? then Ok
    else if e.req.from >= n * c.ws then Bug
    else Overrun
  }

  /** One request, applied to the flash cells alone. */
  ghost function Apply(c: Config, e: Event, cells: seq<Page>): (r: Effect)
    requires ValidEvent(c, |cells|, e) && ValidCells(c, cells)
    ensures ValidCells(c, r.cells)
  {
    match e.req
    case Read(_, _, _, _, _) => Effect(cells, ReadExit(c, |cells|, e), 0)
    case Write(to, data, mode, ow) => ApplyWrite(c, e, cells, to, data, mode, ow)
    case WriteSpare(to, mode, offs, oob) =>
      var r := WriteOobOnly(c, e.env, cells, 0, PageOf(c, to), mode, offs, oob);
      Effect(r.cells, r.ret, 0)
    case Erase(addr, len) => ApplyErase(c, e, cells, addr, len)
    case MarkBlock(ofs) => ApplyMark(c, e, cells, ofs)
  }

  ghost predicate ValidEvents(c: Config, n: nat, es: seq<Event>) {
    forall i :: 0 <= i < |es| ==> ValidEvent(c, n, es[i])
  }

  /** The flash cells after a run. */
  ghost function RunCells(c: Config, cells: seq<Page>, es: seq<Event>): (r: seq<Page>)
    requires ValidEvents(c, |cells|, es) && ValidCells(c, cells)
    ensures ValidCells(c, r)
    decreases |es|
  {
    if es == [] then cells else RunCells(c, Apply(c, es[0], cells).cells, es[1..])
  }

  /**
   The cache comes through an event coherent: no partial page of a read is raw, carries an OOB buffer or follows an
   ECC failure of its call, and a write drops the cached page or does not reach it.
   */
  ghost predicate SafeEvent(c: Config, cells: seq<Page>, e: Event)
    requires ValidCells(c, cells)
  {
    match e.req
    case Read(_, from, len, mode, oq) =>
      if Enters(c, |cells|, e) then
        RequestFits(c, |cells|, from, len);
        KeepRead(c, cells, PageOf(c, from), ColOf(c, from), len, mode, oq.OobRead?, 0)
      else true
    case Write(to, data, mode, ow) =>
      if InDevice(c, |cells|, to, |data|) && data != [] then
        RequestFits(c, |cells|, to, |data|);
        KeepWrite(c, e.env, e.cached, to, |data|, mode, ow)
      else true
    case _ => true
  }

  /** On a device of at most 2 GiB the test sees every page, so every write is safe. */
  lemma SmallDeviceSafe(c: Config, cells: seq<Page>, e: Event)
    requires ValidCells(c, cells) && ValidEvent(c, |cells|, e) && |cells| * c.ws <= 0x8000_0000 && e.req.Write?
    ensures SafeEvent(c, cells, e)
  {
    var to, data := e.req.to, e.req.data;
    if InDevice(c, |cells|, to, |data|) && data != [] {
      RequestFits(c, |cells|, to, |data|);
      if e.cached >= 0 {
        MulStrict(e.cached, |cells|, c.ws);
      }
      LowPageKept(c, e.env, e.cached, to, |data|, e.req.mode, e.req.ow);
    }
  }

  ghost predicate SafeRun(c: Config, cells: seq<Page>, es: seq<Event>)
    requires ValidEvents(c, |cells|, es) && ValidCells(c, cells)
    decreases |es|
  {
    es == [] || (SafeEvent(c, cells, es[0]) && SafeRun(c, Apply(c, es[0], cells).cells, es[1..]))
  }

  /**
   The answer, exactly, in terms of an uncached driver and of the page the cache held: OOB bytes and failures are the
   same; the data is the same unless a raw read is served corrected bytes; corrected bits are not reported for a page
   that comes from the cache.
   */
  ghost predicate ReadAgrees(c: Config, cells: seq<Page>, cached: int, p: nat, col: nat, len: nat, mode: Mode, oq: OobRead,
                             a: Answer)
    requires ValidCells(c, cells) && cached < |cells| && ReadFits(c, mode, oq)
    requires col < c.ws && p < |cells| && len <= Room(c.ws, |cells|, p, col)
  {
    var u, last := ReadPages(c, cells, p, col, len, mode, oq), LastPage(c.ws, p, col, len);
    var hidden := Hidden(c, cells, cached, p, col, last, mode, oq.OobRead?);
    && (a.data == u.data <==> Truthful(c, cells, cached, p, col, last, mode, oq.OobRead?))
    && a.oob == u.oob && a.count == len
    && hidden <= u.corrected && a.ret == ReadRet(u.failed, u.corrected - hidden)
  }

  ghost predicate Agrees(c: Config, cells: seq<Page>, e: Event, a: Answer)
    requires ValidEvent(c, |cells|, e) && ValidCells(c, cells)
  {
    if Enters(c, |cells|, e) then
      RequestFits(c, |cells|, e.req.from, e.req.len);
      ReadAgrees(c, cells, e.cached, PageOf(c, e.req.from), ColOf(c, e.req.from), e.req.len, e.req.mode, e.req.oq, a)
    else
      var r := Apply(c, e, cells);
      a.ret == r.ret && a.count == r.count
  }

  // ---------------------------------------------------------------- what an event leaves to the next

  /** pagebuf after an event, in terms of the flash and of the pagebuf it found alone */
  ghost function NextCached(c: Config, cells: seq<Page>, e: Event): (r: int)
    requires ValidEvent(c, |cells|, e) && ValidCells(c, cells)
    ensures -1 <= r < |cells|
  {
    match e.req
    case Read(_, from, len, mode, oq) =>
      if Enters(c, |cells|, e) then
        RequestFits(c, |cells|, from, len);
        BufAfterRead(c, cells, e.cached, PageOf(c, from), ColOf(c, from), len, mode, oq.OobRead?, 0)
      else e.cached
    case Write(to, data, mode, ow) =>
      if InDevice(c, |cells|, to, |data|) && data != [] then
        RequestFits(c, |cells|, to, |data|);
        BufAfterWrite(c, e.env, e.cached, to, |data|, mode, ow)
      else e.cached
    case WriteSpare(to, mode, offs, oob) => BufAfterOob(c, e.env, |cells|, e.cached, PageOf(c, to), mode, offs, oob)
    case Erase(addr, len) => BufAfterEraseCall(c, e.env, cells, addr, len, e.cached)
    case MarkBlock(ofs) => BufAfterMarkbad(c, e.env, cells, ofs, e.cached)
  }

  /** The staging buffer after an event that is not a read */
  ghost function NextStaged(c: Config, cells: seq<Page>, e: Event): seq<byte>
    requires ValidEvent(c, |cells|, e) && ValidCells(c, cells)
  {
    match e.req
    case Write(to, data, mode, ow) =>
      if !InDevice(c, |cells|, to, |data|) || data == [] then e.staged
      else if !RequestAligned(c, to, |data|, ow) || e.env.protected || OobTooLong(c, mode, ow) then e.staged
      else
        RequestFits(c, |cells|, to, |data|);
        WritePages(c, e.env, cells, 0, PageOf(c, to), ColOf(c, to), data, mode, ow,
                   if ow.NoOob? then Blank(c.oobSize) else e.staged).spare
    case WriteSpare(to, mode, offs, oob) => StagedAfterOob(c, e.env, |cells|, e.staged, PageOf(c, to), mode, offs, oob)
    case MarkBlock(ofs) => StagedAfterMarkbad(c, e.env, cells, ofs, e.staged)
    case _ => e.staged
  }

  /** Every event finds the pagebuf the one before it left, and, unless that was a read, the staging buffer too. */
  ghost predicate Chained(c: Config, cells: seq<Page>, cached: int, staged: seq<byte>, known: bool, es: seq<Event>)
    requires ValidEvents(c, |cells|, es) && ValidCells(c, cells)
    decreases |es|
  {
    es == []
    || (es[0].cached == cached && (known ==> es[0].staged == staged)
        && Chained(c, Apply(c, es[0], cells).cells, NextCached(c, cells, es[0]), NextStaged(c, cells, es[0]),
                   !es[0].req.Read?, es[1..]))
  }

  /** pagebuf after a run */
  ghost function LastCached(c: Config, cells: seq<Page>, cached: int, es: seq<Event>): int
    requires ValidEvents(c, |cells|, es) && ValidCells(c, cells)
    decreases |es|
  {
    if es == [] then cached else LastCached(c, Apply(c, es[0], cells).cells, NextCached(c, cells, es[0]), es[1..])
  }

  ghost predicate AllAgree(c: Config, cells: seq<Page>, es: seq<Event>, answers: seq<Answer>)
    requires ValidEvents(c, |cells|, es) && ValidCells(c, cells) && |answers| == |es|
    decreases |es|
  {
    es == [] || (Agrees(c, cells, es[0], answers[0])
                 && AllAgree(c, Apply(c, es[0], cells).cells, es[1..], answers[1..]))
  }
}

/** Whole runs of the driver against whole runs without its cache. */
module NandRuns {
  import opened Bytes
  import opened Geometry
  import opened OobLayout
  import opened NandSpec
  import opened PageCache
  import opened NandRequests
  import opened NandDriver

  /** nand_read, or nand_read_oob with a data buffer */
  method ServeRead(chip: NandChip, call: ReadCall, from: nat, len: nat, mode: Mode, oq: OobRead, ghost e: Event)
    returns (a: Answer)
    requires chip.Valid() && ValidEvent(chip.c, |chip.cells|, e) && e.req == Read(call, from, len, mode, oq)
    requires e.cached == chip.pagebuf
    modifies chip`selected, chip`pagebuf, chip`failed, chip`corrected, chip.buffers
    ensures chip.Valid() && chip.pagebuf == NextCached(chip.c, chip.cells, e)
    ensures old(chip.CacheCoherent()) && SafeEvent(chip.c, chip.cells, e) ==>
              chip.CacheCoherent() && Agrees(chip.c, chip.cells, e, a)
  {
    if from + len > |chip.cells| * chip.c.ws {
      return Answer(EInval, 0, [], []);
    }
    if len == 0 && call.NandRead? {
      return Answer(Ok, 0, [], []);
    }
    ghost var cache := chip.CacheOf();
    var ret, data, oob := chip.DoReadOps(from, len, mode, oq);
    a := Answer(ret, len, data, oob);
    ReadServed(chip.c, chip.cells, cache, e, chip.CacheOf(), a, chip.failed - old(chip.failed),
               chip.corrected - old(chip.corrected));
  }

  /** What nand_do_read_ops has done, for the caller and for the next event */
  lemma ReadServed(c: Config, cells: seq<Page>, cache: Cache, e: Event, cache': Cache, a: Answer, failed: int, corrected: int)
    requires ValidCells(c, cells) && ValidCache(c, cells, cache) && ValidCache(c, cells, cache')
    requires ValidEvent(c, |cells|, e) && e.req.Read? && e.cached == cache.pagebuf
    requires InDevice(c, |cells|, e.req.from, e.req.len) && (e.req.len > 0 || e.req.call.NandReadOob?)
    requires ReadDone(c, cells, cache, e.req.from, e.req.len, e.req.mode, e.req.oq, cache', a.ret, a.data, a.oob, failed, corrected)
    requires a.count == e.req.len
    ensures cache'.pagebuf == NextCached(c, cells, e)
    ensures Coherent(c, cells, cache) && SafeEvent(c, cells, e) ==> Coherent(c, cells, cache') && Agrees(c, cells, e, a)
  {
    var from, len, mode, oq := e.req.from, e.req.len, e.req.mode, e.req.oq;
    if Enters(c, |cells|, e) {
      RequestFits(c, |cells|, from, len);
      CachedReadBuf(c, cells, cache, PageOf(c, from), ColOf(c, from), len, mode, oq, NOTHING);
      if Coherent(c, cells, cache) && SafeEvent(c, cells, e) {
        ReadOfCache(c, cells, cache, PageOf(c, from), ColOf(c, from), len, mode, oq, a);
      }
    }
  }

  /** A read through a coherent cache gives the uncached answer. */
  lemma ReadOfCache(c: Config, cells: seq<Page>, cache: Cache, p: nat, col: nat, len: nat, mode: Mode, oq: OobRead, a: Answer)
    requires ValidCells(c, cells) && ValidCache(c, cells, cache) && Coherent(c, cells, cache) && ReadFits(c, mode, oq)
    requires col < c.ws && p < |cells| && len <= Room(c.ws, |cells|, p, col) && KeepRead(c, cells, p, col, len, mode, oq.OobRead?, 0)
    requires var r := CachedRead(c, cells, cache, p, col, len, mode, oq, NOTHING);
             a == Answer(ReadRet(r.out.failed, r.out.corrected), len, r.out.data, r.out.oob)
    ensures Coherent(c, cells, CachedRead(c, cells, cache, p, col, len, mode, oq, NOTHING).cache)
    ensures ReadAgrees(c, cells, cache.pagebuf, p, col, len, mode, oq, a)
  {
    CachedReadExact(c, cells, cache, p, col, len, mode, oq, NOTHING);
    FromNothing(c, cells, cache.pagebuf, p, col, LastPage(c.ws, p, col, len), mode, oq.OobRead?,
                CachedRead(c, cells, cache, p, col, len, mode, oq, NOTHING), ReadPages(c, cells, p, col, len, mode, oq));
  }

  lemma FromNothing(c: Config, cells: seq<Page>, cached: int, p: nat, col: nat, last: nat, mode: Mode, hasOob: bool,
                    r: Loaded, u: ReadOut)
    requires ValidCells(c, cells) && ValidCache(c, cells, r.cache) && cached < |cells|
    requires ReadExact(c, cells, cached, p, col, last, mode, hasOob, NOTHING, r, u)
    ensures r.out.oob == u.oob && r.out.failed == u.failed
    ensures r.out.corrected + Hidden(c, cells, cached, p, col, last, mode, hasOob) == u.corrected
    ensures r.out.data == u.data <==> Truthful(c, cells, cached, p, col, last, mode, hasOob)
  {
    assert [] + u.data == u.data && [] + u.oob == u.oob;
  }

  method Serve(chip: NandChip, req: Request, env: Env) returns (a: Answer, e: Event)
    requires chip.Valid() && WellFormed(chip.c, req) && ValidEnv(chip.c, env)
    modifies chip, chip.buffers
    ensures chip.Valid() && e == Event(req, env, old(chip.buffers[chip.c.ws..]), old(chip.pagebuf))
    ensures chip.cells == Apply(chip.c, e, old(chip.cells)).cells
    ensures old(chip.CacheCoherent()) && SafeEvent(chip.c, old(chip.cells), e) ==>
              chip.CacheCoherent() && Agrees(chip.c, old(chip.cells), e, a)
    ensures chip.pagebuf == NextCached(chip.c, old(chip.cells), e)
    ensures !req.Read? ==> chip.buffers[chip.c.ws..] == NextStaged(chip.c, old(chip.cells), e)
  {
    e := Event(req, env, chip.buffers[chip.c.ws..], chip.pagebuf);
    match req
    case Read(call, from, len, mode, oq) =>
      a := ServeRead(chip, call, from, len, mode, oq, e);
    case Write(to, data, mode, ow) =>
      a := ServeWrite(chip, to, data, mode, ow, env, e);
    case WriteSpare(to, mode, offs, oob) =>
      var ret := chip.DoWriteOob(to, mode, offs, oob, env, 0);
      a := Answer(ret, 0, [], []);
    case Erase(addr, len) =>
      var ret, failAddr := chip.EraseNand(addr, len, env);
      a := Answer(ret, failAddr, [], []);
    case MarkBlock(ofs) =>
      var ret := chip.BlockMarkbad(ofs, env);
      a := Answer(ret, 0, [], []);
  }

  /** nand_write and nand_write_oob with a data buffer */
  method ServeWrite(chip: NandChip, to: nat, data: seq<byte>, mode: Mode, ow: OobWrite, env: Env, ghost e: Event)
    returns (a: Answer)
    requires chip.Valid() && ValidEvent(chip.c, |chip.cells|, e) && e.req == Write(to, data, mode, ow) && e.env == env
    requires e.cached == chip.pagebuf && e.staged == chip.buffers[chip.c.ws..]
    modifies chip`cells, chip`selected, chip`pagebuf, chip.buffers
    ensures chip.Valid()
    ensures chip.cells == Apply(chip.c, e, old(chip.cells)).cells && Agrees(chip.c, old(chip.cells), e, a)
    ensures old(chip.CacheCoherent()) && SafeEvent(chip.c, old(chip.cells), e) ==> chip.CacheCoherent()
    ensures chip.pagebuf == NextCached(chip.c, old(chip.cells), e)
    ensures chip.buffers[chip.c.ws..] == NextStaged(chip.c, old(chip.cells), e)
  {
    if to + |data| > |chip.cells| * chip.c.ws {
      return Answer(EInval, 0, [], []);
    }
    ghost var cells, cache := chip.cells, chip.CacheOf();
    var ret, retlen := chip.DoWriteOps(to, data, mode, ow, env);
    a := Answer(ret, retlen, [], []);
    WriteServed(chip.c, cells, cache, e, chip.cells, chip.CacheOf(), chip.buffers[chip.c.ws..], a);
  }

  /** What nand_do_write_ops has done, for the caller and for the next event */
  lemma WriteServed(c: Config, cells: seq<Page>, cache: Cache, e: Event, cells': seq<Page>, cache': Cache, spare': seq<byte>,
                    a: Answer)
    requires ValidCells(c, cells) && ValidCache(c, cells, cache) && ValidCells(c, cells') && ValidCache(c, cells', cache')
    requires ValidEvent(c, |cells|, e) && e.req.Write? && e.cached == cache.pagebuf && a.count >= 0
    requires InDevice(c, |cells|, e.req.to, |e.req.data|)
    requires WriteDone(c, e.env, cells, cache, e.staged, e.req.to, e.req.data, e.req.mode, e.req.ow, cells', cache', spare',
                       a.ret, a.count)
    ensures cells' == Apply(c, e, cells).cells && Agrees(c, cells, e, a)
    ensures Coherent(c, cells, cache) && SafeEvent(c, cells, e) ==> Coherent(c, cells', cache')
    ensures cache'.pagebuf == NextCached(c, cells, e) && spare' == NextStaged(c, cells, e)
  {
    var to, data, mode, ow := e.req.to, e.req.data, e.req.mode, e.req.ow;
    WriteDoneCache(c, e.env, cells, cache, e.staged, to, data, mode, ow, cells', cache', spare', a.ret, a.count);
    if data != [] {
      RequestFits(c, |cells|, to, |data|);
      ChecksAre(c, to, |data|, mode, ow, e.env);
      if RequestAligned(c, to, |data|, ow) && !e.env.protected && !OobTooLong(c, mode, ow) {
        WriteDoneOut(c, e.env, cells, cache, e.staged, to, data, mode, ow, cells', cache', spare', a.ret, a.count);
      }
    }
  }

  /**
   Every run keeps the flash what an uncached driver makes of it, and each event finds the pagebuf and the staging
   buffer the one before it left. While every event is safe, the cache stays coherent and every answer is the
   uncached one.
   */
  method Run(chip: NandChip, reqs: seq<Request>, envs: seq<Env>) returns (answers: seq<Answer>, events: seq<Event>)
    requires chip.Valid() && |envs| == |reqs|
    requires forall i :: 0 <= i < |reqs| ==> WellFormed(chip.c, reqs[i]) && ValidEnv(chip.c, envs[i])
    modifies chip, chip.buffers
    ensures chip.Valid() && |answers| == |events| == |reqs|
    ensures Issued(reqs, envs, events)
    ensures ValidEvents(chip.c, |old(chip.cells)|, events)
    ensures chip.cells == RunCells(chip.c, old(chip.cells), events)
    ensures Chained(chip.c, old(chip.cells), old(chip.pagebuf), old(chip.buffers[chip.c.ws..]), true, events)
    ensures chip.pagebuf == LastCached(chip.c, old(chip.cells), old(chip.pagebuf), events)
    ensures old(chip.CacheCoherent()) && SafeRun(chip.c, old(chip.cells), events) ==>
              chip.CacheCoherent() && AllAgree(chip.c, old(chip.cells), events, answers)
    decreases |reqs|
  {
    answers, events := [], [];
    if reqs != [] {
      ghost var cells0 := chip.cells;
      var a, e := Serve(chip, reqs[0], envs[0]);
      ghost var cells1, cached1, staged1 := chip.cells, chip.pagebuf, chip.buffers[chip.c.ws..];
      var as', es' := Run(chip, reqs[1..], envs[1..]);
      RunCons(chip.c, cells0, e, es', a, as', cells1, cached1, staged1);
      IssuedCons(reqs, envs, e, es');
      answers, events := [a] + as', [e] + es';
    }
  }

  /** The events are those of the requests and of the hardware they met. */
  ghost predicate Issued(reqs: seq<Request>, envs: seq<Env>, es: seq<Event>)
    requires |envs| == |reqs|
  {
    |es| == |reqs| && forall i :: 0 <= i < |es| ==> es[i].req == reqs[i] && es[i].env == envs[i]
  }

  lemma IssuedCons(reqs: seq<Request>, envs: seq<Env>, e: Event, es: seq<Event>)
    requires |envs| == |reqs| > 0 && e.req == reqs[0] && e.env == envs[0] && Issued(reqs[1..], envs[1..], es)
    ensures Issued(reqs, envs, [e] + es)
  {
  }

  /** A run is its first event, and then the run of the rest. */
  lemma RunCons(c: Config, cells: seq<Page>, e: Event, es: seq<Event>, a: Answer, answers: seq<Answer>, cells1: seq<Page>,
                cached1: int, staged1: seq<byte>)
    requires ValidCells(c, cells) && ValidEvent(c, |cells|, e) && cells1 == Apply(c, e, cells).cells
    requires cached1 == NextCached(c, cells, e) && (!e.req.Read? ==> staged1 == NextStaged(c, cells, e))
    requires ValidEvents(c, |cells1|, es) && |answers| == |es| && Chained(c, cells1, cached1, staged1, true, es)
    ensures ValidEvents(c, |cells|, [e] + es)
    ensures RunCells(c, cells, [e] + es) == RunCells(c, cells1, es)
    ensures Chained(c, cells, e.cached, e.staged, true, [e] + es)
    ensures LastCached(c, cells, e.cached, [e] + es) == LastCached(c, cells1, cached1, es)
    ensures SafeRun(c, cells, [e] + es) <==> SafeEvent(c, cells, e) && SafeRun(c, cells1, es)
    ensures AllAgree(c, cells, [e] + es, [a] + answers) <==> Agrees(c, cells, e, a) && AllAgree(c, cells1, es, answers)
  {
    var all, told := [e] + es, [a] + answers;
    assert all[0] == e && all[1..] == es && told[0] == a && told[1..] == answers;
  }
}
