/** What an erase does to every page of the device, on success and on failure. */
module EraseLaws {
  import opened Bytes
  import opened Geometry
  import opened NandSpec
  import opened NandRequests

  /** The page at which an erase of blocks from page p stopped, or would go on, after `done` blocks */
  function StopPage(c: Config, p: nat, done: nat): nat {
    p + Times(done, c.ppb)
  }

  /** Page q after the erase of blocks from page p: erased, torn by a failed erase, or as it was. */
  ghost predicate PageExact(c: Config, env: Env, before: seq<Page>, k: nat, p: nat, r: EraseOut, q: nat)
    requires ValidEnv(c, env) && ValidCells(c, before) && ValidCells(c, r.cells) && q < |before|
  {
    var stop := StopPage(c, p, r.done);
    && (p <= q < stop ==> r.cells[q] == Blank(c.ws + c.oobSize))
    && (stop <= q < stop + c.ppb && r.failPage >= 0 ==> r.cells[q] == TornErase(c, env, k + r.done, q - stop))
    && (q < p || stop + c.ppb <= q || (stop <= q && r.failPage < 0) ==> r.cells[q] == before[q])
  }

  /** How far an erase got, and why it stopped there. */
  ghost predicate StopExact(c: Config, env: Env, before: seq<Page>, k: nat, p: nat, n: nat, r: EraseOut)
    requires ValidEnv(c, env) && ValidCells(c, before) && p + Times(n, c.ppb) <= |before|
  {
    var stop := StopPage(c, p, r.done);
    && r.done <= n
    && (r.ret.Ok? ==> r.done == n && r.failPage == -1)
    && (!r.ret.Ok? ==> r.ret.EIo? && r.done < n && stop + c.ppb <= |before|
                       && if BlockBadAt(c, before, stop) then r.failPage == -1
                          else EraseFails(env, k + r.done) && r.failPage == stop)
  }

  lemma RoomForBlock(c: Config, p: nat, n: nat, size: nat)
    requires n > 0 && p + Times(n, c.ppb) <= size
    ensures p + c.ppb <= size && p + c.ppb + Times(n - 1, c.ppb) <= size
  {
  }

  /** Pages past the block are not touched by its erase. */
  lemma LaterBlockKept(c: Config, env: Env, cells: seq<Page>, k: nat, p: nat, s: nat)
    requires ValidEnv(c, env) && ValidCells(c, cells) && p + c.ppb <= s && s + c.ppb <= |cells|
    ensures BlockBadAt(c, EraseResult(c, env, cells, k, p), s) == BlockBadAt(c, cells, s)
  {
    EraseResultAt(c, env, cells, k, p, MarkPage(c, s));
  }

  lemma PageExactMore(c: Config, env: Env, cells: seq<Page>, k: nat, p: nat, cells': seq<Page>, rest: EraseOut,
                      r: EraseOut, q: nat)
    requires ValidEnv(c, env) && ValidCells(c, cells) && ValidCells(c, cells') && ValidCells(c, rest.cells)
    requires p + c.ppb <= |cells| && cells' == EraseResult(c, env, cells, k, p) && !EraseFails(env, k) && q < |cells|
    requires r == EraseOut(rest.cells, 1 + rest.done, rest.ret, rest.failPage)
    requires PageExact(c, env, cells', k + 1, p + c.ppb, rest, q)
    ensures PageExact(c, env, cells, k, p, r, q)
  {
    EraseResultAt(c, env, cells, k, p, q);
    assert StopPage(c, p, r.done) == StopPage(c, p + c.ppb, rest.done);
  }

  lemma StopExactMore(c: Config, env: Env, cells: seq<Page>, k: nat, p: nat, n: nat, cells': seq<Page>, rest: EraseOut,
                      r: EraseOut)
    requires ValidEnv(c, env) && ValidCells(c, cells) && ValidCells(c, cells') && n > 0
    requires p + c.ppb <= |cells| && p + Times(n, c.ppb) <= |cells| && p + c.ppb + Times(n - 1, c.ppb) <= |cells|
    requires cells' == EraseResult(c, env, cells, k, p)
    requires r.done == 1 + rest.done && r.ret == rest.ret && r.failPage == rest.failPage
    requires StopExact(c, env, cells', k + 1, p + c.ppb, n - 1, rest)
    ensures StopExact(c, env, cells, k, p, n, r)
  {
    var stop := StopPage(c, p, r.done);
    assert stop == StopPage(c, p + c.ppb, rest.done);
    if !r.ret.Ok? {
      LaterBlockKept(c, env, cells, k, p, stop);
    }
  }

  lemma StopExactNext(c: Config, env: Env, cells: seq<Page>, k: nat, p: nat, n: nat, cells': seq<Page>, k': nat, p': nat,
                      n': nat, rest: EraseOut, r: EraseOut)
    requires ValidEnv(c, env) && ValidCells(c, cells) && n > 0 && p + Times(n, c.ppb) <= |cells|
    requires p + c.ppb <= |cells| && cells' == EraseResult(c, env, cells, k, p)
    requires k' == k + 1 && p' == p + c.ppb && n' == n - 1 && p' + Times(n', c.ppb) <= |cells'|
    requires r == EraseOut(rest.cells, 1 + rest.done, rest.ret, rest.failPage)
    requires StopExact(c, env, cells', k', p', n', rest)
    ensures StopExact(c, env, cells, k, p, n, r)
  {
    StopExactMore(c, env, cells, k, p, n, cells', rest, r);
  }

  lemma StopStep(c: Config, env: Env, cells: seq<Page>, k: nat, p: nat, n: nat, cells': seq<Page>, k': nat, p': nat,
                 n': nat)
    requires ValidEnv(c, env) && ValidCells(c, cells) && n > 0 && p + Times(n, c.ppb) <= |cells|
    requires p + c.ppb <= |cells| && !BlockBadAt(c, cells, p) && !EraseFails(env, k)
    requires cells' == EraseResult(c, env, cells, k, p) && k' == k + 1 && p' == p + c.ppb && n' == n - 1
    requires p' + Times(n', c.ppb) <= |cells'|
    requires StopExact(c, env, cells', k', p', n', EraseBlocks(c, env, cells', k', p', n'))
    ensures StopExact(c, env, cells, k, p, n, EraseBlocks(c, env, cells, k, p, n))
  {
    EraseMore(c, env, cells, k, p, n, cells', k', p', n');
    StopExactNext(c, env, cells, k, p, n, cells', k', p', n', EraseBlocks(c, env, cells', k', p', n'),
                  EraseBlocks(c, env, cells, k, p, n));
  }

  lemma PageStep(c: Config, env: Env, cells: seq<Page>, k: nat, p: nat, n: nat, cells': seq<Page>, k': nat, p': nat,
                 n': nat, q: nat)
    requires ValidEnv(c, env) && ValidCells(c, cells) && n > 0 && p + Times(n, c.ppb) <= |cells| && q < |cells|
    requires p + c.ppb <= |cells| && !BlockBadAt(c, cells, p) && !EraseFails(env, k)
    requires cells' == EraseResult(c, env, cells, k, p) && k' == k + 1 && p' == p + c.ppb && n' == n - 1
    requires p' + Times(n', c.ppb) <= |cells'|
    requires PageExact(c, env, cells', k', p', EraseBlocks(c, env, cells', k', p', n'), q)
    ensures PageExact(c, env, cells, k, p, EraseBlocks(c, env, cells, k, p, n), q)
  {
    EraseMore(c, env, cells, k, p, n, cells', k', p', n');
    PageExactMore(c, env, cells, k, p, cells', EraseBlocks(c, env, cells', k', p', n'), EraseBlocks(c, env, cells, k, p, n), q);
  }

  /** An erase that stops at its first block */
  lemma EndExact(c: Config, env: Env, cells: seq<Page>, k: nat, p: nat, n: nat, q: nat)
    requires ValidEnv(c, env) && ValidCells(c, cells) && n > 0 && p + Times(n, c.ppb) <= |cells| && q < |cells|
    requires p + c.ppb <= |cells| && (BlockBadAt(c, cells, p) || EraseFails(env, k))
    ensures PageExact(c, env, cells, k, p, EraseBlocks(c, env, cells, k, p, n), q)
    ensures StopExact(c, env, cells, k, p, n, EraseBlocks(c, env, cells, k, p, n))
  {
    EraseEnds(c, env, cells, k, p, n);
    EraseResultAt(c, env, cells, k, p, q);
  }

  /** Every page of the device after an erase */
  lemma {:induction false} ErasePageExact(c: Config, env: Env, cells: seq<Page>, k: nat, p: nat, n: nat, q: nat)
    requires ValidEnv(c, env) && ValidCells(c, cells) && p + Times(n, c.ppb) <= |cells| && q < |cells|
    ensures PageExact(c, env, cells, k, p, EraseBlocks(c, env, cells, k, p, n), q)
    decreases n
  {
    if n > 0 {
      RoomForBlock(c, p, n, |cells|);
      if BlockBadAt(c, cells, p) || EraseFails(env, k) {
        EndExact(c, env, cells, k, p, n, q);
      } else {
        var cells', k', p', n' := EraseResult(c, env, cells, k, p), k + 1, p + c.ppb, n - 1;
        ErasePageExact(c, env, cells', k', p', n', q);
        PageStep(c, env, cells, k, p, n, cells', k', p', n', q);
      }
    }
  }

  /** Where an erase stops, and why */
  lemma {:induction false} EraseStopExact(c: Config, env: Env, cells: seq<Page>, k: nat, p: nat, n: nat)
    requires ValidEnv(c, env) && ValidCells(c, cells) && p + Times(n, c.ppb) <= |cells|
    ensures StopExact(c, env, cells, k, p, n, EraseBlocks(c, env, cells, k, p, n))
    decreases n
  {
    if n > 0 {
      RoomForBlock(c, p, n, |cells|);
      if BlockBadAt(c, cells, p) || EraseFails(env, k) {
        EndExact(c, env, cells, k, p, n, p);
      } else {
        var cells', k', p', n' := EraseResult(c, env, cells, k, p), k + 1, p + c.ppb, n - 1;
        EraseStopExact(c, env, cells', k', p', n');
        StopStep(c, env, cells, k, p, n, cells', k', p', n');
      }
    }
  }

  lemma FirstWasGood(c: Config, env: Env, cells: seq<Page>, k: nat, p: nat, n: nat)
    requires ValidEnv(c, env) && ValidCells(c, cells) && p + Times(n, c.ppb) <= |cells|
    requires EraseBlocks(c, env, cells, k, p, n).done > 0
    ensures n > 0 && p + c.ppb <= |cells| && p + c.ppb + Times(n - 1, c.ppb) <= |cells|
    ensures !BlockBadAt(c, cells, p) && !EraseFails(env, k)
  {
    RoomForBlock(c, p, n, |cells|);
    EraseEnds(c, env, cells, k, p, n);
  }

  /** Block b of the range was good when the erase started, and its own erase is not reported as failed. */
  ghost predicate WasGood(c: Config, env: Env, cells: seq<Page>, k: nat, p: nat, b: nat)
    requires ValidEnv(c, env) && ValidCells(c, cells)
  {
    var page := StopPage(c, p, b);
    page + c.ppb <= |cells| && !BlockBadAt(c, cells, page) && !EraseFails(env, k + b)
  }

  lemma DoneMore(c: Config, env: Env, cells: seq<Page>, k: nat, p: nat, n: nat, cells': seq<Page>, k': nat, p': nat,
                 n': nat, b: nat)
    requires ValidEnv(c, env) && ValidCells(c, cells) && n > 0 && p + Times(n, c.ppb) <= |cells|
    requires p + c.ppb <= |cells| && !BlockBadAt(c, cells, p) && !EraseFails(env, k)
    requires cells' == EraseResult(c, env, cells, k, p) && k' == k + 1 && p' == p + c.ppb && n' == n - 1
    requires 0 < b < EraseBlocks(c, env, cells, k, p, n).done
    ensures p' + Times(n', c.ppb) <= |cells'| && b - 1 < EraseBlocks(c, env, cells', k', p', n').done
  {
    EraseMore(c, env, cells, k, p, n, cells', k', p', n');
  }

  lemma WasGoodMore(c: Config, env: Env, cells: seq<Page>, k: nat, p: nat, cells': seq<Page>, b: nat)
    requires ValidEnv(c, env) && ValidCells(c, cells) && p + c.ppb <= |cells| && b > 0
    requires cells' == EraseResult(c, env, cells, k, p) && WasGood(c, env, cells', k + 1, p + c.ppb, b - 1)
    ensures WasGood(c, env, cells, k, p, b)
  {
    assert StopPage(c, p, b) == StopPage(c, p + c.ppb, b - 1);
    LaterBlockKept(c, env, cells, k, p, StopPage(c, p, b));
  }

  /** A block that was erased was good, and its erase was not reported as failed. */
  lemma {:induction false} ErasedWereGood(c: Config, env: Env, cells: seq<Page>, k: nat, p: nat, n: nat, b: nat)
    requires ValidEnv(c, env) && ValidCells(c, cells) && p + Times(n, c.ppb) <= |cells|
    requires b < EraseBlocks(c, env, cells, k, p, n).done
    ensures WasGood(c, env, cells, k, p, b)
    decreases n
  {
    FirstWasGood(c, env, cells, k, p, n);
    if b == 0 {
      assert StopPage(c, p, b) == p;
    } else {
      var cells', k', p', n' := EraseResult(c, env, cells, k, p), k + 1, p + c.ppb, n - 1;
      DoneMore(c, env, cells, k, p, n, cells', k', p', n', b);
      ErasedWereGood(c, env, cells', k', p', n', b - 1);
      WasGoodMore(c, env, cells, k, p, cells', b);
    }
  }
}
