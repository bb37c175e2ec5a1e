/** What an accepted write does to every data byte of the device, on success and on failure. */
module WriteLaws {
  import opened Bytes
  import opened Geometry
  import opened OobLayout
  import opened NandSpec
  import opened NandRequests

  /** The page function stores the data bytes in place. */
  ghost predicate StoresData(c: Config) {
    forall d: seq<byte>, o: seq<byte> :: |d| == c.ws && |o| == c.oobSize ==> Encode(c, d, o).bits[..c.ws] == d
  }

  lemma {:induction false} PaddedAt(ws: nat, col: nat, data: seq<byte>, j: nat)
    requires col + |data| <= ws && j < ws
    ensures col <= j < col + |data| ==> Padded(ws, col, data)[j] == data[j - col]
    ensures !(col <= j < col + |data|) ==> Padded(ws, col, data)[j] == ERASED
  {
    if j < col {
      BlankAt(col, j);
    } else if j >= col + |data| {
      BlankAt(ws - col - |data|, j - col - |data|);
    }
  }

  /** The bits a turn sends to data column j of its page */
  lemma TurnByte(c: Config, col: nat, data: seq<byte>, mode: Mode, ow: OobWrite, spare: seq<byte>, j: nat)
    requires col + |data| <= c.ws && |spare| == c.oobSize && OobFits(c, mode, ow) && j < c.ws
    requires mode.Raw? || StoresData(c)
    ensures TurnImage(c, col, data, mode, ow, spare).bits[j] == Padded(c.ws, col, data)[j]
  {
    var pad, staged := Padded(c.ws, col, data), StageOob(c, spare, mode, ow);
    if !mode.Raw? {
      assert Encode(c, pad, staged).bits[..c.ws] == pad;
      assert Encode(c, pad, staged).bits[..c.ws][j] == Encode(c, pad, staged).bits[j];
    }
  }

  /** What a program does to column j of its page */
  lemma ProgramByte(c: Config, cells: seq<Page>, p: nat, bits: Page, env: Env, k: nat, j: nat)
    requires ValidCells(c, cells) && ValidEnv(c, env) && p < |cells| && |bits| == c.ws + c.oobSize && j < c.ws
    ensures !ProgFails(env, k) ==> Program(c, cells, p, bits, env, k)[p][j] == cells[p][j] & bits[j]
    ensures ProgFails(env, k) ==> Program(c, cells, p, bits, env, k)[p][j] == cells[p][j] & Torn(c, env, k)[j]
  {
    if ProgFails(env, k) {
      AndAt(cells[p], Torn(c, env, k), j);
    } else {
      AndAt(cells[p], bits, j);
    }
  }

  /** How far column j of page q lies after column col of page p */
  function Distance(ws: nat, p: nat, col: nat, q: nat, j: nat): int
    requires p <= q && col <= ws
    decreases q - p
  {
    if p == q then j - col else ws - col + Distance(ws, p + 1, 0, q, j)
  }

  lemma {:induction false} DistanceIs(ws: nat, p: nat, col: nat, q: nat, j: nat)
    requires p <= q && col <= ws
    ensures Distance(ws, p, col, q, j) == q * ws + j - (p * ws + col)
    decreases q - p
  {
    if p < q {
      DistanceIs(ws, p + 1, 0, q, j);
      assert (p + 1) * ws == p * ws + ws;
    }
  }

  lemma {:induction false} DistanceFrom(ws: nat, p: nat, col: nat, q: nat, j: nat)
    requires p <= q && col <= ws
    ensures Distance(ws, p, col, q, j) == Distance(ws, p, col, q, 0) + j
    ensures p < q ==> Distance(ws, p, col, q, 0) >= ws - col
    decreases q - p
  {
    if p < q {
      DistanceFrom(ws, p + 1, 0, q, j);
    }
  }

  /** The i-th byte of data is at column j of page q, and has been written. */
  ghost predicate Written(ws: nat, p: nat, col: nat, done: nat, q: nat, j: nat)
    requires col <= ws
  {
    p <= q && 0 <= Distance(ws, p, col, q, j) < done
  }

  /** Page q is the one whose program failed after `done` bytes. */
  ghost predicate Tearing(ws: nat, p: nat, col: nat, done: nat, q: nat)
    requires col <= ws
  {
    p <= q && Distance(ws, p, col, q, 0) <= done < Distance(ws, p, col, q, 0) + ws
  }

  ghost predicate ByteExact(c: Config, env: Env, before: seq<Page>, k: nat, p: nat, col: nat, data: seq<byte>,
                            r: WriteOut, q: nat, j: nat)
    requires ValidEnv(c, env) && ValidCells(c, before) && ValidCells(c, r.cells) && q < |before| && j < c.ws
    requires col <= c.ws && r.done <= |data|
  {
    && (Written(c.ws, p, col, r.done, q, j) ==>
          r.cells[q][j] == before[q][j] & data[Distance(c.ws, p, col, q, j)])
    && (!Written(c.ws, p, col, r.done, q, j) && r.ret.EIo? && Tearing(c.ws, p, col, r.done, q) ==>
          r.cells[q][j] == before[q][j] & Torn(c, env, k + q - p)[j])
    && (!Written(c.ws, p, col, r.done, q, j) && !(r.ret.EIo? && Tearing(c.ws, p, col, r.done, q)) ==>
          r.cells[q][j] == before[q][j])
  }

  /** Pages before the first are not touched. */
  lemma {:induction false} EarlierUntouched(c: Config, env: Env, cells: seq<Page>, k: nat, p: nat, col: nat,
                                            data: seq<byte>, mode: Mode, ow: OobWrite, spare: seq<byte>, q: nat)
    requires ValidEnv(c, env) && ValidCells(c, cells) && |spare| == c.oobSize
    requires col < c.ws && 0 < |data| <= Room(c.ws, |cells|, p, col) && OobFits(c, mode, ow) && q < p
    ensures q < |cells| && WritePages(c, env, cells, k, p, col, data, mode, ow, spare).cells[q] == cells[q]
    decreases |data|
  {
    var bytes := Min(c.ws - col, |data|);
    var image := TurnImage(c, col, data[..bytes], mode, ow, spare);
    var cells' := Program(c, cells, p, image.bits, env, k);
    if ProgFails(env, k) {
      WriteFails(c, env, cells, k, p, col, data, bytes, mode, ow, spare, image, cells');
    } else if bytes == |data| {
      WriteLast(c, env, cells, k, p, col, data, bytes, mode, ow, spare, image, cells');
    } else {
      var data', ow' := data[bytes..], OobRest(c, mode, ow);
      OobRestFits(c, mode, ow);
      EarlierUntouched(c, env, cells', k + 1, p + 1, 0, data', mode, ow', image.oob, q);
      WriteMore(c, env, cells, k, p, col, data, bytes, mode, ow, spare, image, cells', data', ow');
      assert cells'[q] == cells[q];
    }
  }

  lemma AndErased(x: byte)
    ensures x & ERASED == x
  {
  }

  /** One page that was programmed: its bytes of the request are in, its other data bytes are as they were. */
  lemma FirstPageExact(c: Config, env: Env, cells: seq<Page>, k: nat, p: nat, col: nat, data: seq<byte>, bytes: nat,
                       mode: Mode, ow: OobWrite, spare: seq<byte>, image: Image, cells': seq<Page>, j: nat)
    requires ValidEnv(c, env) && ValidCells(c, cells) && |spare| == c.oobSize && OobFits(c, mode, ow)
    requires p < |cells| && col + bytes <= c.ws && bytes <= |data| && j < c.ws && (mode.Raw? || StoresData(c))
    requires image == TurnImage(c, col, data[..bytes], mode, ow, spare)
    requires cells' == Program(c, cells, p, image.bits, env, k) && !ProgFails(env, k)
    ensures col <= j < col + bytes ==> cells'[p][j] == cells[p][j] & data[j - col]
    ensures !(col <= j < col + bytes) ==> cells'[p][j] == cells[p][j]
  {
    TurnByte(c, col, data[..bytes], mode, ow, spare, j);
    PaddedAt(c.ws, col, data[..bytes], j);
    ProgramByte(c, cells, p, image.bits, env, k, j);
    AndErased(cells[p][j]);
  }

  lemma WriteFailsExact(c: Config, env: Env, cells: seq<Page>, k: nat, p: nat, col: nat, data: seq<byte>, bytes: nat,
                        mode: Mode, ow: OobWrite, spare: seq<byte>, image: Image, cells': seq<Page>, q: nat, j: nat)
    requires ValidEnv(c, env) && ValidCells(c, cells) && |spare| == c.oobSize && OobFits(c, mode, ow)
    requires col < c.ws && 0 < |data| <= Room(c.ws, |cells|, p, col) && bytes == Min(c.ws - col, |data|)
    requires image == TurnImage(c, col, data[..bytes], mode, ow, spare)
    requires cells' == Program(c, cells, p, image.bits, env, k) && ProgFails(env, k) && q < |cells| && j < c.ws
    ensures ByteExact(c, env, cells, k, p, col, data, WritePages(c, env, cells, k, p, col, data, mode, ow, spare), q, j)
  {
    WriteFails(c, env, cells, k, p, col, data, bytes, mode, ow, spare, image, cells');
    if q == p {
      ProgramByte(c, cells, p, image.bits, env, k, j);
    } else if p < q {
      DistanceFrom(c.ws, p, col, q, j);
    }
  }

  lemma WriteLastExact(c: Config, env: Env, cells: seq<Page>, k: nat, p: nat, col: nat, data: seq<byte>, bytes: nat,
                       mode: Mode, ow: OobWrite, spare: seq<byte>, image: Image, cells': seq<Page>, q: nat, j: nat)
    requires ValidEnv(c, env) && ValidCells(c, cells) && |spare| == c.oobSize && OobFits(c, mode, ow)
    requires col < c.ws && 0 < |data| <= Room(c.ws, |cells|, p, col) && bytes == Min(c.ws - col, |data|)
    requires image == TurnImage(c, col, data[..bytes], mode, ow, spare)
    requires cells' == Program(c, cells, p, image.bits, env, k) && !ProgFails(env, k) && bytes == |data|
    requires q < |cells| && j < c.ws && (mode.Raw? || StoresData(c))
    ensures ByteExact(c, env, cells, k, p, col, data, WritePages(c, env, cells, k, p, col, data, mode, ow, spare), q, j)
  {
    WriteLast(c, env, cells, k, p, col, data, bytes, mode, ow, spare, image, cells');
    if q == p {
      FirstPageExact(c, env, cells, k, p, col, data, bytes, mode, ow, spare, image, cells', j);
    } else if p < q {
      DistanceFrom(c.ws, p, col, q, j);
    }
  }

  /** A write that ends with its first page */
  lemma WriteEndExact(c: Config, env: Env, cells: seq<Page>, k: nat, p: nat, col: nat, data: seq<byte>, mode: Mode,
                      ow: OobWrite, spare: seq<byte>, q: nat, j: nat)
    requires ValidEnv(c, env) && ValidCells(c, cells) && |spare| == c.oobSize && OobFits(c, mode, ow)
    requires col < c.ws && 0 < |data| <= Room(c.ws, |cells|, p, col) && (ProgFails(env, k) || |data| <= c.ws - col)
    requires q < |cells| && j < c.ws && (mode.Raw? || StoresData(c))
    ensures ByteExact(c, env, cells, k, p, col, data, WritePages(c, env, cells, k, p, col, data, mode, ow, spare), q, j)
  {
    var bytes := Min(c.ws - col, |data|);
    var image := TurnImage(c, col, data[..bytes], mode, ow, spare);
    var cells' := Program(c, cells, p, image.bits, env, k);
    if ProgFails(env, k) {
      WriteFailsExact(c, env, cells, k, p, col, data, bytes, mode, ow, spare, image, cells', q, j);
    } else {
      WriteLastExact(c, env, cells, k, p, col, data, bytes, mode, ow, spare, image, cells', q, j);
    }
  }

  lemma RestCanBeWritten(c: Config, cells: seq<Page>, p: nat, col: nat, data: seq<byte>, bytes: nat, mode: Mode,
                         ow: OobWrite, data': seq<byte>, ow': OobWrite, cells': seq<Page>)
    requires OobFits(c, mode, ow) && col < c.ws && bytes == Min(c.ws - col, |data|) < |data| <= Room(c.ws, |cells|, p, col)
    requires data' == data[bytes..] && ow' == OobRest(c, mode, ow) && |cells'| == |cells|
    ensures OobFits(c, mode, ow') && 0 < |data'| <= Room(c.ws, |cells'|, p + 1, 0) && |data'| < |data|
  {
    OobRestFits(c, mode, ow);
  }

  /** From the rest of a write to the whole of it */
  lemma WriteMoreExact(c: Config, env: Env, cells: seq<Page>, cells': seq<Page>, k: nat, p: nat, col: nat,
                       data: seq<byte>, bytes: nat, data': seq<byte>, rest: WriteOut, whole: WriteOut, q: nat, j: nat)
    requires ValidEnv(c, env) && ValidCells(c, cells) && ValidCells(c, cells') && ValidCells(c, rest.cells)
    requires p < |cells| && q < |cells| && j < c.ws && col < c.ws && bytes == c.ws - col <= |data|
    requires data' == data[bytes..] && rest.done <= |data'|
    requires whole == WriteOut(rest.cells, rest.spare, bytes + rest.done, rest.ret)
    requires forall i :: 0 <= i < |cells| && i != p ==> cells'[i] == cells[i]
    requires q == p ==> rest.cells[p] == cells'[p]
    requires col <= j ==> cells'[p][j] == cells[p][j] & data[j - col]
    requires j < col ==> cells'[p][j] == cells[p][j]
    requires ByteExact(c, env, cells', k + 1, p + 1, 0, data', rest, q, j)
    ensures ByteExact(c, env, cells, k, p, col, data, whole, q, j)
  {
    if q > p {
      DistanceFrom(c.ws, p + 1, 0, q, j);
    }
  }

  lemma WriteGoesOn(c: Config, env: Env, cells: seq<Page>, k: nat, p: nat, col: nat, data: seq<byte>, bytes: nat,
                    mode: Mode, ow: OobWrite, spare: seq<byte>, image: Image, cells': seq<Page>, data': seq<byte>,
                    ow': OobWrite, q: nat, j: nat)
    requires ValidEnv(c, env) && ValidCells(c, cells) && |spare| == c.oobSize && OobFits(c, mode, ow)
    requires col < c.ws && 0 < |data| <= Room(c.ws, |cells|, p, col) && bytes == Min(c.ws - col, |data|)
    requires image == TurnImage(c, col, data[..bytes], mode, ow, spare)
    requires cells' == Program(c, cells, p, image.bits, env, k)
    requires data' == data[bytes..] && ow' == OobRest(c, mode, ow)
    requires !ProgFails(env, k) && bytes < |data| && q < |cells| && j < c.ws && (mode.Raw? || StoresData(c))
    requires OobFits(c, mode, ow') && 0 < |data'| <= Room(c.ws, |cells'|, p + 1, 0)
    requires ByteExact(c, env, cells', k + 1, p + 1, 0, data',
                       WritePages(c, env, cells', k + 1, p + 1, 0, data', mode, ow', image.oob), q, j)
    ensures ByteExact(c, env, cells, k, p, col, data, WritePages(c, env, cells, k, p, col, data, mode, ow, spare), q, j)
  {
    FirstPageExact(c, env, cells, k, p, col, data, bytes, mode, ow, spare, image, cells', j);
    WriteJoins(c, env, cells, k, p, col, data, bytes, mode, ow, spare, image, cells', data', ow', q, j,
               WritePages(c, env, cells', k + 1, p + 1, 0, data', mode, ow', image.oob));
  }

  lemma WriteJoins(c: Config, env: Env, cells: seq<Page>, k: nat, p: nat, col: nat, data: seq<byte>, bytes: nat,
                   mode: Mode, ow: OobWrite, spare: seq<byte>, image: Image, cells': seq<Page>, data': seq<byte>,
                   ow': OobWrite, q: nat, j: nat, rest: WriteOut)
    requires ValidEnv(c, env) && ValidCells(c, cells) && |spare| == c.oobSize && OobFits(c, mode, ow)
    requires col < c.ws && 0 < |data| <= Room(c.ws, |cells|, p, col) && bytes == Min(c.ws - col, |data|)
    requires image == TurnImage(c, col, data[..bytes], mode, ow, spare)
    requires cells' == Program(c, cells, p, image.bits, env, k)
    requires data' == data[bytes..] && ow' == OobRest(c, mode, ow)
    requires !ProgFails(env, k) && bytes < |data| && q < |cells| && j < c.ws
    requires OobFits(c, mode, ow') && 0 < |data'| <= Room(c.ws, |cells'|, p + 1, 0)
    requires rest == WritePages(c, env, cells', k + 1, p + 1, 0, data', mode, ow', image.oob)
    requires col <= j ==> cells'[p][j] == cells[p][j] & data[j - col]
    requires j < col ==> cells'[p][j] == cells[p][j]
    requires ByteExact(c, env, cells', k + 1, p + 1, 0, data', rest, q, j)
    ensures ByteExact(c, env, cells, k, p, col, data, WritePages(c, env, cells, k, p, col, data, mode, ow, spare), q, j)
  {
    WriteMore(c, env, cells, k, p, col, data, bytes, mode, ow, spare, image, cells', data', ow');
    EarlierUntouched(c, env, cells', k + 1, p + 1, 0, data', mode, ow', image.oob, p);
    WriteMoreExact(c, env, cells, cells', k, p, col, data, bytes, data', rest,
                   WritePages(c, env, cells, k, p, col, data, mode, ow, spare), q, j);
  }

  /**
   Every data byte of the device after a write: the bytes reported written are old AND new, a failed
   program has torn its own page, and every other byte is as it was.
   */
  lemma {:induction false} WriteExact(c: Config, env: Env, cells: seq<Page>, k: nat, p: nat, col: nat, data: seq<byte>,
                                      mode: Mode, ow: OobWrite, spare: seq<byte>, q: nat, j: nat)
    requires ValidEnv(c, env) && ValidCells(c, cells) && |spare| == c.oobSize && OobFits(c, mode, ow)
    requires col < c.ws && 0 < |data| <= Room(c.ws, |cells|, p, col)
    requires q < |cells| && j < c.ws && (mode.Raw? || StoresData(c))
    ensures ByteExact(c, env, cells, k, p, col, data, WritePages(c, env, cells, k, p, col, data, mode, ow, spare), q, j)
    decreases |data|
  {
    if ProgFails(env, k) || |data| <= c.ws - col {
      WriteEndExact(c, env, cells, k, p, col, data, mode, ow, spare, q, j);
    } else {
      var bytes := c.ws - col;
      var image := TurnImage(c, col, data[..bytes], mode, ow, spare);
      var cells' := Program(c, cells, p, image.bits, env, k);
      var data', ow' := data[bytes..], OobRest(c, mode, ow);
      RestCanBeWritten(c, cells, p, col, data, bytes, mode, ow, data', ow', cells');
      WriteExact(c, env, cells', k + 1, p + 1, 0, data', mode, ow', image.oob, q, j);
      WriteGoesOn(c, env, cells, k, p, col, data, bytes, mode, ow, spare, image, cells', data', ow', q, j);
    }
  }

  lemma SameByte(c: Config, p: nat, col: nat, to: nat, q: nat, j: nat, done: nat)
    requires to == p * c.ws + col && col < c.ws && j < c.ws
    ensures Written(c.ws, p, col, done, q, j) <==> to <= q * c.ws + j < to + done
    ensures Tearing(c.ws, p, col, done, q) <==> q * c.ws <= to + done < q * c.ws + c.ws
    ensures p <= q ==> Distance(c.ws, p, col, q, j) == q * c.ws + j - to
  {
    if p <= q {
      DistanceIs(c.ws, p, col, q, j);
      DistanceIs(c.ws, p, col, q, 0);
    } else {
      MulMono(q + 1, p, c.ws);
      assert (q + 1) * c.ws == q * c.ws + c.ws;
    }
  }

  /**
   An accepted write without an OOB buffer, byte by byte of the device: `count` bytes from `to` on are
   old AND new; if the call failed, the page that holds byte to + count was torn; all else is unchanged.
   */
  lemma WriteRequestExact(c: Config, e: Event, cells: seq<Page>, to: nat, data: seq<byte>, mode: Mode, q: nat, j: nat, x: int)
    requires ValidEvent(c, |cells|, e) && ValidCells(c, cells) && q < |cells| && j < c.ws && x == q * c.ws + j
    requires InDevice(c, |cells|, to, |data|) && data != [] && WriteChecks(c, to, |data|, mode, NoOob, e.env).Ok?
    requires mode.Raw? || StoresData(c)
    ensures var r := ApplyWrite(c, e, cells, to, data, mode, NoOob);
            && 0 <= r.count <= |data| && r.ret == (if r.count == |data| then Ok else EIo)
            && (to <= x < to + r.count ==> r.cells[q][j] == cells[q][j] & data[x - to])
            && (!(to <= x < to + r.count) && !(r.ret.EIo? && x - j <= to + r.count < x - j + c.ws) ==>
                  r.cells[q][j] == cells[q][j])
  {
    RequestFits(c, |cells|, to, |data|);
    ChecksFit(c, to, |data|, mode, NoOob, e.env);
    var p, col := PageOf(c, to), ColOf(c, to);
    WrittenAt(c, e.env, cells, p, col, to, data, mode, q, j, x,
              WritePages(c, e.env, cells, 0, p, col, data, mode, NoOob, Blank(c.oobSize)));
  }

  lemma WrittenAt(c: Config, env: Env, cells: seq<Page>, p: nat, col: nat, to: nat, data: seq<byte>, mode: Mode, q: nat, j: nat,
                  x: int, w: WriteOut)
    requires ValidEnv(c, env) && ValidCells(c, cells) && q < |cells| && j < c.ws && x == q * c.ws + j
    requires col < c.ws && 0 < |data| <= Room(c.ws, |cells|, p, col) && p * c.ws + col == to && (mode.Raw? || StoresData(c))
    requires w == WritePages(c, env, cells, 0, p, col, data, mode, NoOob, Blank(c.oobSize))
    ensures to <= x < to + w.done ==> w.cells[q][j] == cells[q][j] & data[x - to]
    ensures !(to <= x < to + w.done) && !(w.ret.EIo? && x - j <= to + w.done < x - j + c.ws) ==> w.cells[q][j] == cells[q][j]
  {
    WriteExact(c, env, cells, 0, p, col, data, mode, NoOob, Blank(c.oobSize), q, j);
    SameByte(c, p, col, to, q, j, w.done);
    ExactAt(c, env, cells, p, col, to, data, w, q, j, x);
  }

  lemma ExactAt(c: Config, env: Env, cells: seq<Page>, p: nat, col: nat, to: nat, data: seq<byte>, w: WriteOut, q: nat,
                j: nat, x: int)
    requires ValidEnv(c, env) && ValidCells(c, cells) && ValidCells(c, w.cells) && q < |cells| && j < c.ws
    requires col < c.ws && w.done <= |data| && ByteExact(c, env, cells, 0, p, col, data, w, q, j)
    requires Written(c.ws, p, col, w.done, q, j) <==> to <= x < to + w.done
    requires Tearing(c.ws, p, col, w.done, q) <==> x - j <= to + w.done < x - j + c.ws
    requires p <= q ==> Distance(c.ws, p, col, q, j) == x - to
    ensures to <= x < to + w.done ==> w.cells[q][j] == cells[q][j] & data[x - to]
    ensures !(to <= x < to + w.done) && !(w.ret.EIo? && x - j <= to + w.done < x - j + c.ws) ==> w.cells[q][j] == cells[q][j]
  {
  }
}
