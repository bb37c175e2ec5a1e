/** What a write does to the OOB areas of its pages: which page sends which of the client's bytes, and where. */
module SpareLaws {
  import opened Bytes
  import opened Geometry
  import opened OobLayout
  import opened NandSpec
  import opened WriteLaws

  /** A request that the write loop can carry out */
  ghost predicate Writing(c: Config, env: Env, cells: seq<Page>, p: nat, col: nat, data: seq<byte>, mode: Mode, ow: OobWrite,
                          spare: seq<byte>)
  {
    && ValidEnv(c, env) && ValidCells(c, cells) && |spare| == c.oobSize && OobFits(c, mode, ow)
    && col < c.ws && 0 < |data| <= Room(c.ws, |cells|, p, col)
  }

  ghost predicate KeepsByte(c: Config, d: seq<byte>, o: seq<byte>, x: nat) {
    |d| == c.ws && |o| == c.oobSize && x < c.oobSize ==>
      Encode(c, d, o).bits[c.ws + x] == o[x] && Encode(c, d, o).oob[x] == o[x]
  }

  /** The page function sends OOB byte x as it was staged, and leaves it so. */
  ghost predicate Passes(c: Config, mode: Mode, x: nat) {
    x < c.oobSize && (mode.Raw? || forall d: seq<byte>, o: seq<byte> :: KeepsByte(c, d, o, x))
  }

  /** Page i of a write that programmed `done` bytes from column col on was programmed. */
  predicate Turned(ws: nat, col: nat, done: nat, i: nat)
    requires col <= ws
    decreases i
  {
    if i == 0 then done > 0 else done > ws - col && Turned(ws, 0, done - (ws - col), i - 1)
  }

  lemma {:induction false} TurnedIs(ws: nat, col: nat, done: nat, i: nat)
    requires col < ws
    ensures Turned(ws, col, done, i) <==> done > 0 && i * ws < col + done
    decreases i
  {
    if i > 0 {
      assert i * ws == (i - 1) * ws + ws && (i - 1) * ws >= 0;
      if done > ws - col {
        TurnedIs(ws, 0, done - (ws - col), i - 1);
      }
    }
  }

  // ---------------------------------------------------------------- one page

  /** Client byte s of a page's share is staged at slot offs + s, */
  lemma StagedClient(c: Config, spare: seq<byte>, mode: Mode, ow: OobWrite, slots: seq<nat>, s: nat)
    requires |spare| == c.oobSize && ow.OobWrite? && OobFits(c, mode, ow) && slots == Slots(c.free, c.oobSize, mode)
    requires DisjointRegions(c.free) && s < Min(|ow.bytes|, |slots|)
    ensures slots[ow.offs + s] < c.oobSize
    ensures StageOob(c, spare, mode, ow)[slots[ow.offs + s]] == ow.bytes[s]
  {
    var take := Min(|ow.bytes|, |slots|);
    var pos := slots[ow.offs..ow.offs + take];
    PartDistinct(c.free, c.oobSize, mode, ow.offs, take, pos);
    ScatterAt(spare, pos, ow.bytes[..take], s);
  }

  /** The client has a byte for position x. */
  ghost predicate Supplies(c: Config, mode: Mode, ow: OobWrite, x: nat)
    requires OobFits(c, mode, ow)
  {
    ow.OobWrite? && exists s :: ow.offs <= s < ow.offs + Min(|ow.bytes|, |Slots(c.free, c.oobSize, mode)|)
                                && Slots(c.free, c.oobSize, mode)[s] == x
  }

  /** and a byte the client does not supply stays what the staging buffer held. */
  lemma StagedOther(c: Config, spare: seq<byte>, mode: Mode, ow: OobWrite, x: nat)
    requires |spare| == c.oobSize && OobFits(c, mode, ow) && x < c.oobSize && !Supplies(c, mode, ow, x)
    ensures StageOob(c, spare, mode, ow)[x] == spare[x]
  {
    if ow.OobWrite? {
      var slots := Slots(c.free, c.oobSize, mode);
      var take := Min(|ow.bytes|, |slots|);
      var pos := slots[ow.offs..ow.offs + take];
      SlotsWithin(c.free, c.oobSize, mode);
      forall i | 0 <= i < |pos| ensures pos[i] != x {
        assert pos[i] == slots[ow.offs + i];
      }
      ScatterOther(spare, pos, ow.bytes[..take], x);
    }
  }

  /** A byte that passes goes out and stays staged as StageOob left it. */
  lemma SentStaged(c: Config, col: nat, data: seq<byte>, mode: Mode, ow: OobWrite, spare: seq<byte>, x: nat)
    requires col + |data| <= c.ws && |spare| == c.oobSize && OobFits(c, mode, ow) && Passes(c, mode, x)
    ensures TurnImage(c, col, data, mode, ow, spare).bits[c.ws + x] == StageOob(c, spare, mode, ow)[x]
    ensures TurnImage(c, col, data, mode, ow, spare).oob[x] == StageOob(c, spare, mode, ow)[x]
  {
    var pad, staged := Padded(c.ws, col, data), StageOob(c, spare, mode, ow);
    if mode.Raw? {
      assert (pad + staged)[c.ws + x] == staged[x];
    } else {
      assert KeepsByte(c, pad, staged, x);
    }
  }

  // ---------------------------------------------------------------- the pages of a write

  /** Everything a write sends, page by page, as long as no program fails */
  function Turns(c: Config, col: nat, data: seq<byte>, mode: Mode, ow: OobWrite, spare: seq<byte>): (r: seq<Image>)
    requires col < c.ws && data != [] && |spare| == c.oobSize && OobFits(c, mode, ow)
    ensures r != []
    decreases |data|
  {
    var bytes := Min(c.ws - col, |data|);
    var image := TurnImage(c, col, data[..bytes], mode, ow, spare);
    if bytes == |data| then [image] else [image] + Turns(c, 0, data[bytes..], mode, OobRest(c, mode, ow), image.oob)
  }

  lemma TurnsMore(c: Config, col: nat, data: seq<byte>, mode: Mode, ow: OobWrite, spare: seq<byte>, image: Image,
                  data': seq<byte>, ow': OobWrite, i: nat)
    requires SendsOn(c, col, data, mode, ow, spare, image, data', ow')
    ensures OobFits(c, mode, ow') && Turns(c, col, data, mode, ow, spare)[0] == image
    ensures |Turns(c, col, data, mode, ow, spare)| == 1 + |Turns(c, 0, data', mode, ow', image.oob)|
    ensures i < |Turns(c, 0, data', mode, ow', image.oob)| ==>
              i + 1 < |Turns(c, col, data, mode, ow, spare)|
              && Turns(c, col, data, mode, ow, spare)[i + 1] == Turns(c, 0, data', mode, ow', image.oob)[i]
  {
  }

  lemma TurnsFirst(c: Config, col: nat, data: seq<byte>, mode: Mode, ow: OobWrite, spare: seq<byte>, part: seq<byte>)
    requires col < c.ws && data != [] && |spare| == c.oobSize && OobFits(c, mode, ow)
    requires part == data[..Min(c.ws - col, |data|)]
    ensures Turns(c, col, data, mode, ow, spare)[0] == TurnImage(c, col, part, mode, ow, spare)
  {
  }

  /** A write programs its first page and goes on after it. */
  ghost predicate WritesOn(c: Config, env: Env, cells: seq<Page>, k: nat, p: nat, col: nat, data: seq<byte>, mode: Mode,
                           ow: OobWrite, spare: seq<byte>, image: Image, cells': seq<Page>, data': seq<byte>, ow': OobWrite)
  {
    && Writing(c, env, cells, p, col, data, mode, ow, spare) && c.ws - col < |data| && !ProgFails(env, k)
    && SendsOn(c, col, data, mode, ow, spare, image, data', ow')
    && cells' == Program(c, cells, p, image.bits, env, k)
  }

  /** The first page's bits, and what is left for the later ones */
  ghost predicate SendsOn(c: Config, col: nat, data: seq<byte>, mode: Mode, ow: OobWrite, spare: seq<byte>, image: Image,
                          data': seq<byte>, ow': OobWrite)
  {
    && col < c.ws && c.ws - col < |data| && |spare| == c.oobSize && OobFits(c, mode, ow)
    && image == TurnImage(c, col, data[..c.ws - col], mode, ow, spare)
    && data' == data[c.ws - col..] && ow' == OobRest(c, mode, ow)
  }

  /** The first page of a write that goes on is not touched again. */
  lemma FirstPageKept(c: Config, env: Env, cells: seq<Page>, k: nat, p: nat, col: nat, data: seq<byte>, mode: Mode,
                      ow: OobWrite, spare: seq<byte>, image: Image, cells': seq<Page>, data': seq<byte>, ow': OobWrite)
    requires WritesOn(c, env, cells, k, p, col, data, mode, ow, spare, image, cells', data', ow')
    ensures p < |cells| && WritePages(c, env, cells, k, p, col, data, mode, ow, spare).cells[p] == cells'[p]
  {
    LaterPages(c, env, cells, k, p, col, data, mode, ow, spare, image, cells', data', ow');
    EarlierUntouched(c, env, cells', k + 1, p + 1, 0, data', mode, ow', image.oob, p);
  }

  /** The later pages of a write are those of the write of the rest. */
  lemma LaterPages(c: Config, env: Env, cells: seq<Page>, k: nat, p: nat, col: nat, data: seq<byte>, mode: Mode,
                   ow: OobWrite, spare: seq<byte>, image: Image, cells': seq<Page>, data': seq<byte>, ow': OobWrite)
    requires WritesOn(c, env, cells, k, p, col, data, mode, ow, spare, image, cells', data', ow')
    ensures Writing(c, env, cells', p + 1, 0, data', mode, ow', image.oob)
    ensures WritePages(c, env, cells, k, p, col, data, mode, ow, spare) ==
            Longer(WritePages(c, env, cells', k + 1, p + 1, 0, data', mode, ow', image.oob), c.ws - col)
  {
    WriteMore(c, env, cells, k, p, col, data, c.ws - col, mode, ow, spare, image, cells', data', ow');
  }

  function Longer(rest: WriteOut, bytes: nat): WriteOut {
    rest.(done := bytes + rest.done)
  }

  /** Page i of a write as it ends: programmed with what was sent, torn, or as it was */
  ghost predicate PageDone(c: Config, env: Env, k: nat, col: nat, sent: seq<Image>, w: WriteOut, page: Page, page': Page, i: nat)
    requires ValidEnv(c, env) && |page| == c.ws + c.oobSize && col <= c.ws
  {
    if Turned(c.ws, col, w.done, i) then i < |sent| && |sent[i].bits| == |page| && page' == And(page, sent[i].bits)
    else if w.ret.EIo? && (i == 0 || Turned(c.ws, col, w.done, i - 1)) then page' == And(page, Torn(c, env, k + i))
    else page' == page
  }

  /** From the rest of a write to the whole of it */
  lemma PageDoneMore(c: Config, env: Env, k: nat, col: nat, sent: seq<Image>, sent': seq<Image>, w: WriteOut, rest: WriteOut,
                     page: Page, page': Page, i: nat)
    requires ValidEnv(c, env) && |page| == c.ws + c.oobSize && col < c.ws && i > 0
    requires w == Longer(rest, c.ws - col) && PageDone(c, env, k + 1, 0, sent', rest, page, page', i - 1)
    requires i - 1 < |sent'| ==> i < |sent| && sent[i] == sent'[i - 1]
    ensures PageDone(c, env, k, col, sent, w, page, page', i)
  {
    assert Turned(c.ws, col, w.done, i) == (rest.done > 0 && Turned(c.ws, 0, rest.done, i - 1));
    TurnedSome(c.ws, 0, rest.done, i - 1);
    if i > 1 {
      TurnedSome(c.ws, 0, rest.done, i - 2);
      assert Turned(c.ws, col, w.done, i - 1) == (rest.done > 0 && Turned(c.ws, 0, rest.done, i - 2));
    }
  }

  lemma TurnedSome(ws: nat, col: nat, done: nat, i: nat)
    requires col <= ws
    ensures Turned(ws, col, done, i) ==> done > 0
  {
  }

  /** Page q, the i-th from the first of a write on, ends as it should. */
  ghost predicate PageIs(c: Config, env: Env, cells: seq<Page>, k: nat, p: nat, col: nat, data: seq<byte>, mode: Mode,
                         ow: OobWrite, spare: seq<byte>, i: nat, q: nat)
  {
    && Writing(c, env, cells, p, col, data, mode, ow, spare) && q == p + i < |cells|
    && var w := WritePages(c, env, cells, k, p, col, data, mode, ow, spare);
       PageDone(c, env, k, col, Turns(c, col, data, mode, ow, spare), w, cells[q], w.cells[q], i)
  }

  /** A write that ends with its first page */
  lemma EndPages(c: Config, env: Env, cells: seq<Page>, k: nat, p: nat, col: nat, data: seq<byte>, mode: Mode, ow: OobWrite,
                 spare: seq<byte>, i: nat, q: nat)
    requires Writing(c, env, cells, p, col, data, mode, ow, spare) && q == p + i < |cells|
    requires ProgFails(env, k) || |data| <= c.ws - col
    ensures PageIs(c, env, cells, k, p, col, data, mode, ow, spare, i, q)
  {
    var bytes := Min(c.ws - col, |data|);
    var image := TurnImage(c, col, data[..bytes], mode, ow, spare);
    var cells' := Program(c, cells, p, image.bits, env, k);
    TurnsFirst(c, col, data, mode, ow, spare, data[..bytes]);
    if ProgFails(env, k) {
      WriteFails(c, env, cells, k, p, col, data, bytes, mode, ow, spare, image, cells');
    } else {
      WriteLast(c, env, cells, k, p, col, data, bytes, mode, ow, spare, image, cells');
    }
  }

  /** The first page of a write that goes on */
  lemma FirstPageDone(c: Config, env: Env, cells: seq<Page>, k: nat, p: nat, col: nat, data: seq<byte>, mode: Mode,
                      ow: OobWrite, spare: seq<byte>, image: Image, cells': seq<Page>, data': seq<byte>, ow': OobWrite)
    ensures WritesOn(c, env, cells, k, p, col, data, mode, ow, spare, image, cells', data', ow') ==>
              PageIs(c, env, cells, k, p, col, data, mode, ow, spare, 0, p)
  {
    if WritesOn(c, env, cells, k, p, col, data, mode, ow, spare, image, cells', data', ow') {
      FirstPageKept(c, env, cells, k, p, col, data, mode, ow, spare, image, cells', data', ow');
      LaterPages(c, env, cells, k, p, col, data, mode, ow, spare, image, cells', data', ow');
      TurnsMore(c, col, data, mode, ow, spare, image, data', ow', 0);
    }
  }

  /** Every page of the device from the first of a write on, data and OOB area, after the write */
  lemma {:induction false} PagesAfter(c: Config, env: Env, cells: seq<Page>, k: nat, p: nat, col: nat, data: seq<byte>,
                                      mode: Mode, ow: OobWrite, spare: seq<byte>, i: nat, q: nat)
    requires Writing(c, env, cells, p, col, data, mode, ow, spare) && q == p + i < |cells|
    ensures PageIs(c, env, cells, k, p, col, data, mode, ow, spare, i, q)
    decreases |data|
  {
    if ProgFails(env, k) || |data| <= c.ws - col {
      EndPages(c, env, cells, k, p, col, data, mode, ow, spare, i, q);
    } else {
      var image, cells', data', ow' := SplitWrite(c, env, cells, k, p, col, data, mode, ow, spare);
      if i == 0 {
        FirstPageDone(c, env, cells, k, p, col, data, mode, ow, spare, image, cells', data', ow');
      } else {
        PagesAfter(c, env, cells', k + 1, p + 1, 0, data', mode, ow', image.oob, i - 1, q);
        LaterPageDone(c, env, cells, k, p, col, data, mode, ow, spare, image, cells', data', ow', i, q);
      }
    }
  }

  lemma SplitWrite(c: Config, env: Env, cells: seq<Page>, k: nat, p: nat, col: nat, data: seq<byte>, mode: Mode,
                   ow: OobWrite, spare: seq<byte>)
    returns (image: Image, cells': seq<Page>, data': seq<byte>, ow': OobWrite)
    requires Writing(c, env, cells, p, col, data, mode, ow, spare) && c.ws - col < |data| && !ProgFails(env, k)
    ensures WritesOn(c, env, cells, k, p, col, data, mode, ow, spare, image, cells', data', ow')
    ensures Writing(c, env, cells', p + 1, 0, data', mode, ow', image.oob) && |data'| < |data| && |cells'| == |cells|
  {
    image := TurnImage(c, col, data[..c.ws - col], mode, ow, spare);
    cells', data', ow' := Program(c, cells, p, image.bits, env, k), data[c.ws - col..], OobRest(c, mode, ow);
    LaterPages(c, env, cells, k, p, col, data, mode, ow, spare, image, cells', data', ow');
  }

  lemma LaterPageDone(c: Config, env: Env, cells: seq<Page>, k: nat, p: nat, col: nat, data: seq<byte>, mode: Mode,
                      ow: OobWrite, spare: seq<byte>, image: Image, cells': seq<Page>, data': seq<byte>, ow': OobWrite,
                      i: nat, q: nat)
    requires i > 0 && q == p + i
    ensures WritesOn(c, env, cells, k, p, col, data, mode, ow, spare, image, cells', data', ow')
            && PageIs(c, env, cells', k + 1, p + 1, 0, data', mode, ow', image.oob, i - 1, q) ==>
              PageIs(c, env, cells, k, p, col, data, mode, ow, spare, i, q)
  {
    if WritesOn(c, env, cells, k, p, col, data, mode, ow, spare, image, cells', data', ow')
       && PageIs(c, env, cells', k + 1, p + 1, 0, data', mode, ow', image.oob, i - 1, q) {
      LaterPages(c, env, cells, k, p, col, data, mode, ow, spare, image, cells', data', ow');
      OneMorePage(c, env, k, col, data, mode, ow, spare, image, data', ow', i,
                  WritePages(c, env, cells, k, p, col, data, mode, ow, spare),
                  WritePages(c, env, cells', k + 1, p + 1, 0, data', mode, ow', image.oob), cells[q],
                  WritePages(c, env, cells, k, p, col, data, mode, ow, spare).cells[q]);
    }
  }

  lemma OneMorePage(c: Config, env: Env, k: nat, col: nat, data: seq<byte>, mode: Mode, ow: OobWrite, spare: seq<byte>,
                    image: Image, data': seq<byte>, ow': OobWrite, i: nat, w: WriteOut, rest: WriteOut, page: Page,
                    page': Page)
    requires SendsOn(c, col, data, mode, ow, spare, image, data', ow') && OobFits(c, mode, ow') && ValidEnv(c, env)
    requires w == Longer(rest, c.ws - col) && i > 0 && |page| == c.ws + c.oobSize
    requires PageDone(c, env, k + 1, 0, Turns(c, 0, data', mode, ow', image.oob), rest, page, page', i - 1)
    ensures PageDone(c, env, k, col, Turns(c, col, data, mode, ow, spare), w, page, page', i)
  {
    TurnsMore(c, col, data, mode, ow, spare, image, data', ow', i - 1);
    PageDoneMore(c, env, k, col, Turns(c, col, data, mode, ow, spare), Turns(c, 0, data', mode, ow', image.oob), w, rest,
                 page, page', i);
  }

  // ---------------------------------------------------------------- what goes out

  /** The client's OOB bytes */
  function Client(ow: OobWrite): seq<byte> {
    if ow.NoOob? then [] else ow.bytes
  }

  /** Position x is slot s of the client's bytes (-1: none of them), and the page function lets it through. */
  ghost predicate AtSlot(c: Config, mode: Mode, ow: OobWrite, slots: seq<nat>, s: int, x: nat) {
    && DisjointRegions(c.free) && slots == Slots(c.free, c.oobSize, mode) && Passes(c, mode, x) && -1 <= s
    && (s >= 0 ==> ow.OobWrite? && ow.offs + s < |slots| && slots[ow.offs + s] == x)
    && (s == -1 && ow.OobWrite? ==> x !in slots[Min(ow.offs, |slots|)..])
  }

  /** The byte page i of a write sends at slot s: its own, if its share of the client's bytes has one, or the one before. */
  function Staged(avail: nat, bytes: seq<byte>, s: int, b: byte, i: nat): byte
    decreases i
  {
    var own := if 0 <= s < Min(|bytes|, avail) then bytes[s] else b;
    if i == 0 then own else Staged(avail, bytes[Min(|bytes|, avail)..], s, own, i - 1)
  }

  lemma StagedIs(c: Config, spare: seq<byte>, mode: Mode, ow: OobWrite, slots: seq<nat>, s: int, x: nat)
    requires |spare| == c.oobSize && OobFits(c, mode, ow) && AtSlot(c, mode, ow, slots, s, x)
    ensures StageOob(c, spare, mode, ow)[x] == Staged(|slots|, Client(ow), s, spare[x], 0)
  {
    if 0 <= s < Min(|Client(ow)|, |slots|) {
      StagedClient(c, spare, mode, ow, slots, s);
    } else {
      NotSupplied(c, mode, ow, slots, s, x);
      StagedOther(c, spare, mode, ow, x);
    }
  }

  lemma NotSupplied(c: Config, mode: Mode, ow: OobWrite, slots: seq<nat>, s: int, x: nat)
    requires OobFits(c, mode, ow) && AtSlot(c, mode, ow, slots, s, x) && (s == -1 || s >= Min(|Client(ow)|, |slots|))
    ensures !Supplies(c, mode, ow, x)
  {
    SlotsDistinct(c.free, c.oobSize, mode);
    if ow.OobWrite? && s == -1 {
      forall i | ow.offs <= i < |slots| ensures slots[i] != x {
        assert slots[i] == slots[ow.offs..][i - ow.offs];
      }
    }
  }

  lemma StagedMore(avail: nat, bytes: seq<byte>, bytes': seq<byte>, s: int, b: byte, b': byte, i: nat)
    requires i > 0 && bytes' == bytes[Min(|bytes|, avail)..] && b' == Staged(avail, bytes, s, b, 0)
    ensures Staged(avail, bytes, s, b, i) == Staged(avail, bytes', s, b', i - 1)
  {
  }

  /** OOB byte x of the i-th page sent */
  ghost predicate Sends(c: Config, sent: seq<Image>, i: nat, x: nat, b: byte) {
    i < |sent| && c.ws + x < |sent[i].bits| && sent[i].bits[c.ws + x] == b
  }

  lemma SendsLater(c: Config, col: nat, data: seq<byte>, mode: Mode, ow: OobWrite, spare: seq<byte>, image: Image,
                   data': seq<byte>, ow': OobWrite, i: nat, x: nat, b: byte)
    requires SendsOn(c, col, data, mode, ow, spare, image, data', ow') && OobFits(c, mode, ow') && 0 < i
    requires Sends(c, Turns(c, 0, data', mode, ow', image.oob), i - 1, x, b)
    ensures Sends(c, Turns(c, col, data, mode, ow, spare), i, x, b)
  {
    TurnsMore(c, col, data, mode, ow, spare, image, data', ow', i - 1);
  }

  /** The first page's byte, and what it leaves staged */
  lemma FirstSent(c: Config, col: nat, data: seq<byte>, mode: Mode, ow: OobWrite, spare: seq<byte>, slots: seq<nat>, s: int,
                  x: nat, part: seq<byte>, b: byte)
    requires col < c.ws && data != [] && |spare| == c.oobSize && OobFits(c, mode, ow) && AtSlot(c, mode, ow, slots, s, x)
    requires part == data[..Min(c.ws - col, |data|)] && b == Staged(|slots|, Client(ow), s, spare[x], 0)
    ensures Sends(c, Turns(c, col, data, mode, ow, spare), 0, x, b)
    ensures TurnImage(c, col, part, mode, ow, spare).oob[x] == b
  {
    SentStaged(c, col, part, mode, ow, spare, x);
    StagedIs(c, spare, mode, ow, slots, s, x);
    TurnsFirst(c, col, data, mode, ow, spare, part);
  }

  lemma RestSlot(c: Config, col: nat, data: seq<byte>, mode: Mode, ow: OobWrite, spare: seq<byte>, image: Image,
                 data': seq<byte>, ow': OobWrite, i: nat, slots: seq<nat>, s: int, x: nat)
    requires SendsOn(c, col, data, mode, ow, spare, image, data', ow') && AtSlot(c, mode, ow, slots, s, x)
    requires 0 < i < |Turns(c, col, data, mode, ow, spare)|
    ensures OobFits(c, mode, ow') && AtSlot(c, mode, ow', slots, s, x) && i - 1 < |Turns(c, 0, data', mode, ow', image.oob)|
    ensures Client(ow') == Client(ow)[Min(|Client(ow)|, |slots|)..]
  {
    RestClient(c, mode, ow, ow', slots, s, x);
    TurnsMore(c, col, data, mode, ow, spare, image, data', ow', i - 1);
  }

  lemma RestClient(c: Config, mode: Mode, ow: OobWrite, ow': OobWrite, slots: seq<nat>, s: int, x: nat)
    requires OobFits(c, mode, ow) && ow' == OobRest(c, mode, ow) && AtSlot(c, mode, ow, slots, s, x)
    ensures OobFits(c, mode, ow') && AtSlot(c, mode, ow', slots, s, x)
    ensures Client(ow') == Client(ow)[Min(|Client(ow)|, |slots|)..]
  {
  }

  /** The i-th page of a write sends b at OOB byte x. */
  ghost predicate Goes(c: Config, col: nat, data: seq<byte>, mode: Mode, ow: OobWrite, spare: seq<byte>, i: nat, x: nat, b: byte) {
    && col < c.ws && data != [] && |spare| == c.oobSize && OobFits(c, mode, ow)
    && Sends(c, Turns(c, col, data, mode, ow, spare), i, x, b)
  }

  /** A write has an i-th page, and x is a slot of it. */
  ghost predicate Slotted(c: Config, col: nat, data: seq<byte>, mode: Mode, ow: OobWrite, spare: seq<byte>, slots: seq<nat>,
                          s: int, x: nat, i: nat)
  {
    && col < c.ws && data != [] && |spare| == c.oobSize && OobFits(c, mode, ow) && AtSlot(c, mode, ow, slots, s, x)
    && i < |Turns(c, col, data, mode, ow, spare)|
  }

  /** What that page sends there is b. */
  ghost predicate StagesTo(c: Config, col: nat, data: seq<byte>, mode: Mode, ow: OobWrite, spare: seq<byte>, slots: seq<nat>,
                           s: int, x: nat, i: nat, b: byte)
  {
    Slotted(c, col, data, mode, ow, spare, slots, s, x, i) && b == Staged(|slots|, Client(ow), s, spare[x], i)
  }

  /** What every page of a write sends at an OOB byte that the page function lets through */
  lemma {:induction false} SlotSent(c: Config, col: nat, data: seq<byte>, mode: Mode, ow: OobWrite, spare: seq<byte>,
                                    slots: seq<nat>, s: int, x: nat, i: nat, b: byte)
    ensures StagesTo(c, col, data, mode, ow, spare, slots, s, x, i, b) ==> Goes(c, col, data, mode, ow, spare, i, x, b)
    decreases i
  {
    if i == 0 {
      FirstGoes(c, col, data, mode, ow, spare, slots, s, x, b);
    } else {
      var data', ow', spare' := SplitSend(c, col, data, mode, ow, spare, slots, s, x, i, b);
      SlotSent(c, 0, data', mode, ow', spare', slots, s, x, i - 1, b);
      GoesLater(c, col, data, mode, ow, spare, data', ow', spare', i, x, b);
    }
  }

  lemma FirstGoes(c: Config, col: nat, data: seq<byte>, mode: Mode, ow: OobWrite, spare: seq<byte>, slots: seq<nat>, s: int,
                  x: nat, b: byte)
    ensures StagesTo(c, col, data, mode, ow, spare, slots, s, x, 0, b) ==> Goes(c, col, data, mode, ow, spare, 0, x, b)
  {
    if StagesTo(c, col, data, mode, ow, spare, slots, s, x, 0, b) {
      FirstSent(c, col, data, mode, ow, spare, slots, s, x, data[..Min(c.ws - col, |data|)], b);
    }
  }

  /** What the later pages of a write start from */
  ghost predicate Leaves(c: Config, col: nat, data: seq<byte>, mode: Mode, ow: OobWrite, spare: seq<byte>, data': seq<byte>,
                         ow': OobWrite, spare': seq<byte>)
  {
    exists image: Image :: SendsOn(c, col, data, mode, ow, spare, image, data', ow') && spare' == image.oob
  }

  lemma GoesLater(c: Config, col: nat, data: seq<byte>, mode: Mode, ow: OobWrite, spare: seq<byte>, data': seq<byte>,
                  ow': OobWrite, spare': seq<byte>, i: nat, x: nat, b: byte)
    requires 0 < i
    ensures Leaves(c, col, data, mode, ow, spare, data', ow', spare') && Goes(c, 0, data', mode, ow', spare', i - 1, x, b) ==>
              Goes(c, col, data, mode, ow, spare, i, x, b)
  {
    if Leaves(c, col, data, mode, ow, spare, data', ow', spare') && Goes(c, 0, data', mode, ow', spare', i - 1, x, b) {
      var image: Image :| SendsOn(c, col, data, mode, ow, spare, image, data', ow') && spare' == image.oob;
      SendsLater(c, col, data, mode, ow, spare, image, data', ow', i, x, b);
    }
  }

  lemma SplitSend(c: Config, col: nat, data: seq<byte>, mode: Mode, ow: OobWrite, spare: seq<byte>, slots: seq<nat>, s: int,
                  x: nat, i: nat, b: byte)
    returns (data': seq<byte>, ow': OobWrite, spare': seq<byte>)
    requires i > 0
    ensures StagesTo(c, col, data, mode, ow, spare, slots, s, x, i, b) ==>
              Leaves(c, col, data, mode, ow, spare, data', ow', spare')
              && StagesTo(c, 0, data', mode, ow', spare', slots, s, x, i - 1, b)
  {
    data', ow', spare' := [], NoOob, [];
    if StagesTo(c, col, data, mode, ow, spare, slots, s, x, i, b) {
      var part := data[..Min(c.ws - col, |data|)];
      FirstSent(c, col, data, mode, ow, spare, slots, s, x, part, Staged(|slots|, Client(ow), s, spare[x], 0));
      var image := TurnImage(c, col, part, mode, ow, spare);
      data', ow', spare' := data[|part|..], OobRest(c, mode, ow), image.oob;
      RestSlot(c, col, data, mode, ow, spare, image, data', ow', i, slots, s, x);
      StagedMore(|slots|, Client(ow), Client(ow'), s, spare[x], spare'[x], i);
      assert SendsOn(c, col, data, mode, ow, spare, image, data', ow');
    }
  }

  // ---------------------------------------------------------------- in closed form

  /** Where the client has no byte the staging buffer goes out. */
  lemma {:induction false} StagedStale(avail: nat, bytes: seq<byte>, s: int, b: byte, i: nat)
    requires s < 0 || s >= Min(|bytes|, avail)
    ensures Staged(avail, bytes, s, b, i) == b
    decreases i
  {
    if i > 0 {
      StagedStale(avail, bytes[Min(|bytes|, avail)..], s, b, i - 1);
    }
  }

  /** Page i sends byte m * avail + s, where m is i itself or the last page whose share has a byte for slot s. */
  lemma {:induction false} StagedClosed(avail: nat, bytes: seq<byte>, s: nat, b: byte, i: nat, m: nat, t: nat)
    requires s < avail && m <= i && t == Times(m, avail) + s < |bytes| && (m < i ==> |bytes| <= t + avail)
    ensures Staged(avail, bytes, s, b, i) == bytes[t]
    decreases i
  {
    if i > 0 {
      if m == 0 {
        StagedStale(avail, bytes[Min(|bytes|, avail)..], s, bytes[s], i - 1);
      } else {
        StagedClosed(avail, bytes[avail..], s, bytes[s], i - 1, m - 1, t - avail);
      }
    }
  }

  // ---------------------------------------------------------------- over the flash

  /** The write has programmed its i-th page, which is page q. */
  ghost predicate Programmed(c: Config, env: Env, cells: seq<Page>, k: nat, p: nat, col: nat, data: seq<byte>, mode: Mode,
                             ow: OobWrite, spare: seq<byte>, i: nat, q: nat)
    requires Writing(c, env, cells, p, col, data, mode, ow, spare)
  {
    q == p + i < |cells| && Turned(c.ws, col, WritePages(c, env, cells, k, p, col, data, mode, ow, spare).done, i)
  }

  /** A programmed page at a byte that was sent */
  lemma ProgrammedByte(c: Config, env: Env, k: nat, col: nat, sent: seq<Image>, w: WriteOut, page: Page, page': Page, i: nat,
                       x: nat, b: byte)
    requires ValidEnv(c, env) && |page| == c.ws + c.oobSize && col <= c.ws && x < c.oobSize
    requires PageDone(c, env, k, col, sent, w, page, page', i) && Turned(c.ws, col, w.done, i)
    requires Sends(c, sent, i, x, b)
    ensures |page'| == |page| && page'[c.ws + x] == page[c.ws + x] & b
  {
    AndAt(page, sent[i].bits, c.ws + x);
  }

  lemma SpareByte(c: Config, env: Env, cells: seq<Page>, k: nat, p: nat, col: nat, data: seq<byte>, mode: Mode,
                  ow: OobWrite, spare: seq<byte>, slots: seq<nat>, s: int, x: nat, i: nat, q: nat)
    requires Writing(c, env, cells, p, col, data, mode, ow, spare) && AtSlot(c, mode, ow, slots, s, x)
    requires Programmed(c, env, cells, k, p, col, data, mode, ow, spare, i, q)
    ensures WritePages(c, env, cells, k, p, col, data, mode, ow, spare).cells[q][c.ws + x] ==
            cells[q][c.ws + x] & Staged(|slots|, Client(ow), s, spare[x], i)
  {
    PagesAfter(c, env, cells, k, p, col, data, mode, ow, spare, i, q);
    SlotSent(c, col, data, mode, ow, spare, slots, s, x, i, Staged(|slots|, Client(ow), s, spare[x], i));
    var w := WritePages(c, env, cells, k, p, col, data, mode, ow, spare);
    ProgrammedByte(c, env, k, col, Turns(c, col, data, mode, ow, spare), w, cells[q], w.cells[q], i, x,
                   Staged(|slots|, Client(ow), s, spare[x], i));
  }

  /** Client byte t is what page t / avail of the write programs at its slot t % avail. */
  lemma ClientByteIs(c: Config, env: Env, cells: seq<Page>, k: nat, p: nat, col: nat, data: seq<byte>, mode: Mode,
                     ow: OobWrite, spare: seq<byte>, slots: seq<nat>, t: nat, i: nat, s: nat, x: nat, q: nat)
    requires Writing(c, env, cells, p, col, data, mode, ow, spare) && AtSlot(c, mode, ow, slots, s, x)
    requires slots != [] && t < |ow.bytes| && i == t / |slots| && s == t % |slots|
    requires Programmed(c, env, cells, k, p, col, data, mode, ow, spare, i, q)
    ensures WritePages(c, env, cells, k, p, col, data, mode, ow, spare).cells[q][c.ws + x] == cells[q][c.ws + x] & ow.bytes[t]
  {
    DivMod(t, |slots|);
    ClientByteAt(c, env, cells, k, p, col, data, mode, ow, spare, slots, t, i, s, x, q);
  }

  lemma ClientByteAt(c: Config, env: Env, cells: seq<Page>, k: nat, p: nat, col: nat, data: seq<byte>, mode: Mode,
                     ow: OobWrite, spare: seq<byte>, slots: seq<nat>, t: nat, i: nat, s: nat, x: nat, q: nat)
    requires Writing(c, env, cells, p, col, data, mode, ow, spare) && AtSlot(c, mode, ow, slots, s, x)
    requires t == i * |slots| + s < |ow.bytes| && s < |slots|
    requires Programmed(c, env, cells, k, p, col, data, mode, ow, spare, i, q)
    ensures WritePages(c, env, cells, k, p, col, data, mode, ow, spare).cells[q][c.ws + x] == cells[q][c.ws + x] & ow.bytes[t]
  {
    SpareByte(c, env, cells, k, p, col, data, mode, ow, spare, slots, s, x, i, q);
    TimesIsProduct(i, |slots|);
    StagedClosed(|slots|, ow.bytes, s, spare[x], i, i, t);
  }

  /** Where the client's bytes have run out, a page repeats the last byte that a page before it had for the slot. */
  lemma RepeatedByteIs(c: Config, env: Env, cells: seq<Page>, k: nat, p: nat, col: nat, data: seq<byte>, mode: Mode,
                       ow: OobWrite, spare: seq<byte>, slots: seq<nat>, s: nat, x: nat, i: nat, q: nat, m: nat, t: nat)
    requires Writing(c, env, cells, p, col, data, mode, ow, spare) && AtSlot(c, mode, ow, slots, s, x)
    requires m < i && t == m * |slots| + s < |ow.bytes| <= t + |slots|
    requires Programmed(c, env, cells, k, p, col, data, mode, ow, spare, i, q)
    ensures WritePages(c, env, cells, k, p, col, data, mode, ow, spare).cells[q][c.ws + x] == cells[q][c.ws + x] & ow.bytes[t]
  {
    SpareByte(c, env, cells, k, p, col, data, mode, ow, spare, slots, s, x, i, q);
    TimesIsProduct(m, |slots|);
    StagedClosed(|slots|, ow.bytes, s, spare[x], i, m, t);
  }

  /** An OOB byte the client does not supply is programmed as the staging buffer held it. */
  lemma StaleByteIs(c: Config, env: Env, cells: seq<Page>, k: nat, p: nat, col: nat, data: seq<byte>, mode: Mode,
                    ow: OobWrite, spare: seq<byte>, slots: seq<nat>, s: int, x: nat, i: nat, q: nat)
    requires Writing(c, env, cells, p, col, data, mode, ow, spare) && AtSlot(c, mode, ow, slots, s, x)
    requires s == -1 || s >= Min(|Client(ow)|, |slots|)
    requires Programmed(c, env, cells, k, p, col, data, mode, ow, spare, i, q)
    ensures WritePages(c, env, cells, k, p, col, data, mode, ow, spare).cells[q][c.ws + x] == cells[q][c.ws + x] & spare[x]
  {
    SpareByte(c, env, cells, k, p, col, data, mode, ow, spare, slots, s, x, i, q);
    StagedStale(|slots|, Client(ow), s, spare[x], i);
  }
}
