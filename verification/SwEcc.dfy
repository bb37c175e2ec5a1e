/**
 Software ECC: the page write and the two page reads of the generic core, step by step, and the
 partial read against the full one.
 */
module SwEcc {
  import opened Bytes
  import opened Geometry
  import opened OobLayout
  import opened NandSpec

  /** What ecc.correct does to one step: the data it leaves, and its return value. */
  datatype Fix = Fix(data: seq<byte>, stat: int)

  datatype EccParams = EccParams(
    size: nat, bytes: nat, steps: nat, ws: nat, oobSize: nat,
    pos: seq<nat>,                                          // layout->eccpos
    calculate: seq<byte> -> seq<byte>,
    correct: (seq<byte>, seq<byte>, seq<byte>) -> Fix)      // data, code read, code calculated

  ghost predicate ValidEcc(e: EccParams) {
    && e.size > 0 && e.ws == Times(e.steps, e.size)
    && |e.pos| == Times(e.steps, e.bytes) && Within(e.pos, e.oobSize) && Distinct(e.pos)
    && (forall d: seq<byte> :: |d| == e.size ==> |e.calculate(d)| == e.bytes)
    && (forall d: seq<byte>, r: seq<byte>, k: seq<byte> :: |d| == e.size ==> |e.correct(d, r, k).data| == e.size)
  }

  /** A code that fits its page */
  type Ecc = e: EccParams | ValidEcc(e)
    ghost witness EccParams(1, 0, 0, 0, 0, [], (d: seq<byte>) => [],
                            (d: seq<byte>, r: seq<byte>, k: seq<byte>) => Fix(d, 0))

  function Calc(e: Ecc, d: seq<byte>): (r: seq<byte>)
    requires |d| == e.size
    ensures |r| == e.bytes
  {
    e.calculate(d)
  }

  function Correct(e: Ecc, d: seq<byte>, read: seq<byte>, ecc: seq<byte>): (r: Fix)
    requires |d| == e.size
    ensures |r.data| == e.size
  {
    e.correct(d, read, ecc)
  }

  /** The codes of n steps of data */
  function Codes(e: Ecc, data: seq<byte>, n: nat): (r: seq<byte>)
    requires |data| == Times(n, e.size)
    ensures |r| == Times(n, e.bytes)
    decreases n
  {
    if n == 0 then [] else Calc(e, data[..e.size]) + Codes(e, data[e.size..], n - 1)
  }

  datatype Fixed = Fixed(data: seq<byte>, failed: nat, corrected: nat)

  function StepFix(e: Ecc, d: seq<byte>, read: seq<byte>): (r: Fixed)
    requires |d| == e.size
    ensures |r.data| == e.size
  {
    var f := Correct(e, d, read, Calc(e, d));
    Fixed(f.data, if f.stat < 0 then 1 else 0, if f.stat < 0 then 0 else f.stat)
  }

  function Join(a: Fixed, b: Fixed): Fixed {
    Fixed(a.data + b.data, a.failed + b.failed, a.corrected + b.corrected)
  }

  /** n steps of data, each corrected with its own code */
  function FixAll(e: Ecc, data: seq<byte>, codes: seq<byte>, n: nat): (r: Fixed)
    requires |data| == Times(n, e.size) && |codes| == Times(n, e.bytes)
    ensures |r.data| == |data|
    decreases n
  {
    if n == 0 then Fixed([], 0, 0)
    else Join(StepFix(e, data[..e.size], codes[..e.bytes]), FixAll(e, data[e.size..], codes[e.bytes..], n - 1))
  }

  // ---------------------------------------------------------------- what the page functions mean

  /** nand_write_page_swecc */
  function SwEncode(e: Ecc, data: seq<byte>, spare: seq<byte>): (r: Image)
    requires |data| == e.ws && |spare| == e.oobSize
    ensures |r.bits| == e.ws + e.oobSize && |r.oob| == e.oobSize
  {
    var oob := Scatter(spare, e.pos, Codes(e, data, e.steps));
    Image(data + oob, oob)
  }

  /** nand_read_page_swecc */
  function SwDecode(e: Ecc, page: Page): (r: PageOut)
    requires |page| == e.ws + e.oobSize
    ensures |r.data| == e.ws && |r.oob| == e.oobSize
  {
    var f := FixAll(e, page[..e.ws], Gather(page[e.ws..], e.pos), e.steps);
    PageOut(f.data, page[e.ws..], f.failed, f.corrected)
  }

  // ---------------------------------------------------------------- the loops

  /** The calculation loop: one code after the other */
  method CalculateAll(e: Ecc, data: seq<byte>, n: nat) returns (ecc: seq<byte>)
    requires |data| == Times(n, e.size)
    ensures ecc == Codes(e, data, n)
  {
    ecc := [];
    var p, left := data, n;
    while left != 0
      invariant 0 <= left && |p| == Times(left, e.size)
      invariant ecc + Codes(e, p, left) == Codes(e, data, n)
    {
      ecc := ecc + Calc(e, p[..e.size]);
      p, left := p[e.size..], left - 1;
    }
  }

  /** ecc_code[i] = oob_poi[eccpos[i]] */
  method GatherCodes(oob: seq<byte>, pos: seq<nat>) returns (code: seq<byte>)
    requires Within(pos, |oob|)
    ensures code == Gather(oob, pos)
  {
    code := [];
    var i := 0;
    while i < |pos|
      invariant 0 <= i <= |pos|
      invariant code + Gather(oob, pos[i..]) == Gather(oob, pos)
    {
      code := code + [oob[pos[i]]];
      assert pos[i..][1..] == pos[i + 1..];
      i := i + 1;
    }
  }

  /** oob_poi[eccpos[i]] = ecc_calc[i] */
  method ScatterCodes(oob: array<byte>, pos: seq<nat>, ecc: seq<byte>)
    requires Within(pos, oob.Length) && |ecc| == |pos|
    modifies oob
    ensures oob[..] == Scatter(old(oob[..]), pos, ecc)
  {
    var i := 0;
    while i < |pos|
      invariant 0 <= i <= |pos|
      invariant Scatter(oob[..], pos[i..], ecc[i..]) == Scatter(old(oob[..]), pos, ecc)
    {
      ghost var before := oob[..];
      oob[pos[i]] := ecc[i];
      assert oob[..] == before[pos[i] := ecc[i]];
      assert pos[i..][1..] == pos[i + 1..] && ecc[i..][1..] == ecc[i + 1..];
      i := i + 1;
    }
  }

  /** nand_write_page_swecc: the codes go into the staging buffer, then data and staging buffer to the device. */
  method WritePageSwecc(e: Ecc, buf: seq<byte>, oob: array<byte>) returns (bits: Page)
    requires |buf| == e.ws && oob.Length == e.oobSize
    modifies oob
    ensures Image(bits, oob[..]) == SwEncode(e, buf, old(oob[..]))
  {
    var ecc := CalculateAll(e, buf, e.steps);
    ScatterCodes(oob, e.pos, ecc);
    bits := buf + oob[..];
  }

  /** The state of the correction loop: `left` steps from offset p of the buffer remain. */
  ghost predicate Correcting(e: Ecc, buf: array<byte>, end: nat, p: nat, codes: seq<byte>, calcs: seq<byte>, left: nat,
                             done: Fixed, whole: Fixed)
    reads buf
  {
    p + Times(left, e.size) == end <= buf.Length && ToCorrect(e, buf[p..end], codes, calcs, left, done, whole)
  }

  /** The whole outcome is what has been done, and then the correction of the rest. */
  ghost predicate ToCorrect(e: Ecc, data: seq<byte>, codes: seq<byte>, calcs: seq<byte>, left: nat, done: Fixed, whole: Fixed)
    requires |data| == Times(left, e.size)
  {
    && |codes| == |calcs| == Times(left, e.bytes)
    && calcs == Codes(e, data, left)
    && Join(done, FixAll(e, data, codes, left)) == whole
  }

  /** The part of the buffer already corrected, and the parts the loop has no business with */
  ghost predicate Around(buf: array<byte>, at: nat, p: nat, end: nat, done: seq<byte>, head: seq<byte>, tail: seq<byte>)
    reads buf
  {
    at <= p <= end <= buf.Length && buf[at..p] == done && buf[..at] == head && buf[end..] == tail
  }

  /** One correction, in place */
  method CorrectStep(e: Ecc, buf: array<byte>, ghost at: nat, ghost end: nat, p: nat, codes: seq<byte>,
                     calcs: seq<byte>, left: nat, failed: nat, corrected: nat, ghost done: seq<byte>,
                     ghost whole: Fixed, ghost head: seq<byte>, ghost tail: seq<byte>)
    returns (p': nat, codes': seq<byte>, calcs': seq<byte>, left': nat, failed': nat, corrected': nat,
             ghost done': seq<byte>)
    requires Correcting(e, buf, end, p, codes, calcs, left, Fixed(done, failed, corrected), whole) && left > 0
    requires Around(buf, at, p, end, done, head, tail)
    modifies buf
    ensures left' == left - 1
    ensures Correcting(e, buf, end, p', codes', calcs', left', Fixed(done', failed', corrected'), whole)
    ensures Around(buf, at, p', end, done', head, tail)
  {
    ghost var data := buf[p..end];
    p', left' := p + e.size, left - 1;
    assert data[..e.size] == buf[p..p'] && data[e.size..] == buf[p'..end];
    CalcHead(e, data, left, calcs);
    var fix, f, k := FixStep(e, buf[p..p'], codes[..e.bytes], calcs[..e.bytes]);
    failed', corrected' := failed + f, corrected + k;
    codes', calcs' := codes[e.bytes..], calcs[e.bytes..];
    done' := done + fix;
    PlaceFix(buf, p, fix, at, end, done, head, tail);
    CorrectUnfold(e, data, codes, calcs, left, Fixed(done, failed, corrected), fix, f, k,
                  buf[p'..end], codes', calcs', left', Fixed(done', failed', corrected'), whole);
  }

  lemma CalcHead(e: Ecc, data: seq<byte>, n: nat, calcs: seq<byte>)
    requires n > 0 && |data| == Times(n, e.size) && calcs == Codes(e, data, n)
    ensures calcs[..e.bytes] == Calc(e, data[..e.size])
  {
  }

  /** ecc.correct of one step, and what it adds to the statistics */
  method FixStep(e: Ecc, d: seq<byte>, code: seq<byte>, own: seq<byte>) returns (fix: seq<byte>, failed: nat, corrected: nat)
    requires |d| == e.size && own == Calc(e, d)
    ensures Fixed(fix, failed, corrected) == StepFix(e, d, code)
  {
    var r := Correct(e, d, code, own);
    fix, failed, corrected := r.data, 0, 0;
    if r.stat < 0 {
      failed := 1;
    } else {
      corrected := r.stat;
    }
  }

  method PlaceFix(buf: array<byte>, p: nat, fix: seq<byte>, ghost at: nat, ghost end: nat, ghost done: seq<byte>,
                  ghost head: seq<byte>, ghost tail: seq<byte>)
    requires p + |fix| <= end && Around(buf, at, p, end, done, head, tail)
    modifies buf
    ensures Around(buf, at, p + |fix|, end, done + fix, head, tail)
    ensures buf[p + |fix|..end] == old(buf[p + |fix|..end])
  {
    ghost var before := buf[..];
    CopyInto(buf, p, fix);
    Untouched(before, buf[..], at, p, p + |fix|, end);
    assert buf[at..p + |fix|] == buf[at..p] + buf[p..p + |fix|];
  }

  lemma CorrectUnfold(e: Ecc, data: seq<byte>, codes: seq<byte>, calcs: seq<byte>, left: nat, done: Fixed,
                      fix: seq<byte>, failed: nat, corrected: nat, data': seq<byte>, codes': seq<byte>,
                      calcs': seq<byte>, left': nat, done': Fixed, whole: Fixed)
    requires left > 0 && |data| == Times(left, e.size) && ToCorrect(e, data, codes, calcs, left, done, whole)
    requires Fixed(fix, failed, corrected) == StepFix(e, data[..e.size], codes[..e.bytes])
    requires data' == data[e.size..] && codes' == codes[e.bytes..] && calcs' == calcs[e.bytes..] && left' == left - 1
    requires done' == Join(done, Fixed(fix, failed, corrected))
    ensures |data'| == Times(left', e.size) && ToCorrect(e, data', codes', calcs', left', done', whole)
  {
    JoinAssoc(done, Fixed(fix, failed, corrected), FixAll(e, data', codes', left'));
  }

  /** The correction loop over n steps from offset at of the buffer */
  method CorrectAll(e: Ecc, buf: array<byte>, at: nat, n: nat, codes: seq<byte>, calcs: seq<byte>)
    returns (failed: nat, corrected: nat)
    requires at + Times(n, e.size) <= buf.Length
    requires |codes| == Times(n, e.bytes) && calcs == Codes(e, buf[at..at + Times(n, e.size)], n)
    modifies buf
    ensures var end := at + Times(n, e.size);
            Fixed(buf[at..end], failed, corrected) == FixAll(e, old(buf[at..end]), codes, n)
            && buf[..at] == old(buf[..at]) && buf[end..] == old(buf[end..])
  {
    ghost var end := at + Times(n, e.size);
    ghost var whole, done: seq<byte>, head, tail := FixAll(e, buf[at..end], codes, n), [], buf[..at], buf[end..];
    var p, read, ecc, left := at, codes, calcs, n;
    failed, corrected := 0, 0;
    assert Join(Fixed(done, 0, 0), whole) == whole;
    while left != 0
      invariant 0 <= p && 0 <= left
      invariant Correcting(e, buf, end, p, read, ecc, left, Fixed(done, failed, corrected), whole)
      invariant Around(buf, at, p, end, done, head, tail)
      decreases left
    {
      p, read, ecc, left, failed, corrected, done :=
        CorrectStep(e, buf, at, end, p, read, ecc, left, failed, corrected, done, whole, head, tail);
    }
    assert Join(Fixed(done, failed, corrected), Fixed([], 0, 0)) == Fixed(done, failed, corrected);
  }

  lemma Untouched(before: seq<byte>, now: seq<byte>, at: nat, p0: nat, p: nat, end: nat)
    requires at <= p0 <= p <= end <= |before| == |now|
    requires now[..p0] == before[..p0] && now[p..] == before[p..]
    ensures now[..at] == before[..at] && now[end..] == before[end..] && now[at..p0] == before[at..p0]
    ensures now[p..end] == before[p..end]
  {
    assert now[p..end] == now[p..][..end - p] && before[p..end] == before[p..][..end - p];
    assert now[..at] == now[..p0][..at] && now[at..p0] == now[..p0][at..p0] && now[end..] == now[p..][end - p..];
    assert before[..at] == before[..p0][..at] && before[at..p0] == before[..p0][at..p0];
    assert before[end..] == before[p..][end - p..];
  }

  /** nand_read_page_swecc: the page read raw, then every step corrected in place. */
  method ReadPageSwecc(e: Ecc, page: Page, buf: array<byte>, oob: array<byte>) returns (failed: nat, corrected: nat)
    requires |page| == e.ws + e.oobSize && buf.Length == e.ws && oob.Length == e.oobSize && buf != oob
    modifies buf, oob
    ensures PageOut(buf[..], oob[..], failed, corrected) == SwDecode(e, page)
  {
    CopyInto(buf, 0, page[..e.ws]);
    CopyInto(oob, 0, page[e.ws..]);
    assert buf[..] == page[..e.ws] && oob[..] == page[e.ws..];
    assert buf[0..0 + Times(e.steps, e.size)] == buf[..];
    var ecc := CalculateAll(e, buf[..], e.steps);
    var code := GatherCodes(oob[..], e.pos);
    failed, corrected := CorrectAll(e, buf, 0, e.steps, code, ecc);
    assert buf[0..0 + Times(e.steps, e.size)] == buf[..];
  }

  // ---------------------------------------------------------------- the partial read

  /** The code bytes at `index` of the position table */
  function CodesAt(e: Ecc, page: Page, index: nat, len: nat): (r: seq<byte>)
    requires |page| == e.ws + e.oobSize && index + len <= |e.pos|
    ensures |r| == len
  {
    Gather(page[e.ws..], e.pos[index..index + len])
  }

  /** n steps: the data bytes at `at` of the page, corrected with the codes at `index` of the position table */
  function StepStretch(e: Ecc, page: Page, at: nat, size: nat, index: nat, len: nat, n: nat): (r: Fixed)
    requires |page| == e.ws + e.oobSize && at + size <= e.ws && index + len <= |e.pos|
    requires size == Times(n, e.size) && len == Times(n, e.bytes)
    ensures |r.data| == size
  {
    FixAll(e, page[at..at + size], CodesAt(e, page, index, len), n)
  }

  /** num steps of a page from step start, each corrected with its own code */
  function SwFragment(e: Ecc, page: Page, start: nat, num: nat): (r: Fixed)
    requires |page| == e.ws + e.oobSize && start + num <= e.steps
    ensures |r.data| == Times(num, e.size)
  {
    FragmentFits(e, start, num);
    StepStretch(e, page, Times(start, e.size), Times(num, e.size), Times(start, e.bytes), Times(num, e.bytes), num)
  }

  lemma FragmentFits(e: Ecc, start: nat, num: nat)
    requires start + num <= e.steps
    ensures Times(start, e.size) + Times(num, e.size) <= e.ws
    ensures Times(start, e.bytes) + Times(num, e.bytes) <= |e.pos|
  {
    TimesAdd(start, num, e.size);
    TimesMono(start + num, e.steps, e.size);
    TimesAdd(start, num, e.bytes);
    TimesMono(start + num, e.steps, e.bytes);
  }

  lemma StepOrder(offs: nat, len: nat, size: nat)
    requires 0 < offs + len && size > 0
    ensures offs / size <= (offs + len - 1) / size + 1 && (len > 0 ==> offs / size <= (offs + len - 1) / size)
  {
    var x, start, end := offs + len - 1, offs / size, (offs + len - 1) / size + 1;
    DivMod(offs, size);
    DivMod(x, size);
    assert end * size == x / size * size + size;
    assert (end + 1) * size == end * size + size;
    if end < start {
      MulMono(end + 1, start, size);
    }
  }

  /** The first and the last step a stretch of the page touches, and where the first begins */
  lemma StepsOf(e: Ecc, offs: nat, len: nat, start: nat, num: nat)
    requires 0 < offs + len <= e.ws
    requires start == offs / e.size && start + num == (offs + len - 1) / e.size + 1
    ensures start + num <= e.steps
    ensures Times(start, e.size) <= offs && offs + len <= Times(start, e.size) + Times(num, e.size)
  {
    TimesIsProduct(e.steps, e.size);
    TimesIsProduct(start, e.size);
    TimesIsProduct(start + num, e.size);
    TimesAdd(start, num, e.size);
    StepBounds(offs, len, e.size, e.steps, start, start + num);
  }

  lemma StepBounds(offs: nat, len: nat, size: nat, steps: nat, start: nat, end: nat)
    requires 0 < size && 0 < offs + len <= steps * size
    requires start == offs / size && end == (offs + len - 1) / size + 1
    ensures end <= steps && start * size <= offs && offs + len <= end * size
  {
    DivMod(offs, size);
    DivMod(offs + len - 1, size);
    DivBound(offs + len - 1, size, steps);
    assert end * size == (offs + len - 1) / size * size + size;
  }

  /** The number of steps as nand_read_subpage computes it, in 32-bit unsigned arithmetic */
  function StepCount32(offs: nat, len: nat, size: nat): int
    requires size > 0
  {
    (offs + len + 0xFFFF_FFFF) % 0x1_0000_0000 / size - offs / size + 1
  }

  /** It stays within the page exactly when the request does not end at offset 0. */
  lemma StepCountExact(e: Ecc, offs: nat, len: nat)
    requires offs + len <= e.ws < 0x1_0000_0000
    ensures offs / e.size + StepCount32(offs, len, e.size) <= e.steps <==> 0 < offs + len
    ensures 0 < offs + len ==> StepCount32(offs, len, e.size) == (offs + len - 1) / e.size - offs / e.size + 1
  {
    TimesIsProduct(e.steps, e.size);
    if 0 < offs + len {
      WrapsBack(offs + len);
      StepBounds(offs, len, e.size, e.steps, offs / e.size, (offs + len - 1) / e.size + 1);
    } else {
      PastLastStep(e.size, e.steps);
    }
  }

  lemma WrapsBack(x: nat)
    requires 0 < x < 0x1_0000_0000
    ensures (x + 0xFFFF_FFFF) % 0x1_0000_0000 == x - 1
  {
  }

  lemma PastLastStep(size: nat, steps: nat)
    requires size > 0 && steps * size < 0x1_0000_0000
    ensures 0xFFFF_FFFF / size + 1 > steps && 0 / size == 0 && 0xFFFF_FFFF % 0x1_0000_0000 == 0xFFFF_FFFF
  {
    var q := 0xFFFF_FFFF / size;
    DivMod(0xFFFF_FFFF, size);
    assert (q + 1) * size == q * size + size;
    if q < steps {
      MulMono(q + 1, steps, size);
    }
    assert 0 / size == 0;
  }

  /** A gap between neighbouring ECC positions */
  ghost predicate HasGap(pos: seq<nat>) {
    exists i :: 0 <= i < |pos| - 1 && pos[i] + 1 != pos[i + 1]
  }

  /** The loop that looks for gaps */
  method FindGap(pos: seq<nat>) returns (gaps: bool)
    ensures gaps == HasGap(pos)
  {
    gaps := false;
    var i := 0;
    while i < |pos| - 1
      invariant 0 <= i && (|pos| > 0 ==> i <= |pos| - 1) && (|pos| == 0 ==> i == 0)
      invariant forall j :: 0 <= j < i ==> pos[j] + 1 == pos[j + 1]
    {
      if pos[i] + 1 != pos[i + 1] {
        return true;
      }
      i := i + 1;
    }
  }

  lemma {:induction false} Contiguous(pos: seq<nat>)
    requires pos != [] && !HasGap(pos)
    ensures pos == Range(pos[0], |pos|)
    decreases |pos|
  {
    if |pos| > 1 {
      var rest := pos[1..];
      assert pos[0] + 1 == pos[0 + 1];
      forall j | 0 <= j < |rest| - 1 ensures rest[j] + 1 == rest[j + 1] {
        assert pos[j + 1] + 1 == pos[j + 1 + 1];
      }
      Contiguous(rest);
    }
  }

  /** Without gaps, the stretch of the OOB area at the first position holds the code bytes. */
  lemma GatherContiguous(src: seq<byte>, pos: seq<nat>)
    requires pos != [] && !HasGap(pos) && Within(pos, |src|)
    ensures pos[0] + |pos| <= |src| && Gather(src, pos) == src[pos[0]..pos[0] + |pos|]
  {
    Contiguous(pos);
    RangeAt(pos[0], |pos|, |pos| - 1);
    GatherConcat(src, pos[0], |pos|, []);
    assert Range(pos[0], |pos|) + [] == pos;
    assert Gather(src, []) == [];
  }

  /** read_buf of a stretch of the OOB area into its place in the staging buffer */
  method FetchStretch(oob: array<byte>, spare: seq<byte>, pos: seq<nat>)
    requires |spare| == oob.Length && !HasGap(pos) && Within(pos, |spare|)
    modifies oob
    ensures Gather(oob[..], pos) == Gather(spare, pos)
  {
    if pos != [] {
      GatherContiguous(spare, pos);
      CopyInto(oob, pos[0], spare[pos[0]..pos[0] + |pos|]);
      GatherContiguous(oob[..], pos);
    }
  }

  /** The part of the position table from which the code bytes of a fragment are taken: index stays 0 with gaps. */
  ghost function CodePositions(pos: seq<nat>, index: nat, len: nat): seq<nat>
    requires index + len <= |pos|
  {
    if HasGap(pos[index..index + len]) then pos[0..len] else pos[index..index + len]
  }

  lemma SlicesWithin(e: Ecc, index: nat, len: nat)
    requires index + len <= |e.pos|
    ensures Within(e.pos[index..index + len], e.oobSize) && Within(e.pos[0..len], e.oobSize)
  {
  }

  /** The code bytes of a fragment: the whole OOB area is read when there are gaps, else just their stretch. */
  method FetchCodes(e: Ecc, page: Page, oob: array<byte>, index: nat, len: nat) returns (code: seq<byte>)
    requires |page| == e.ws + e.oobSize && oob.Length == e.oobSize && index + len <= |e.pos|
    modifies oob
    ensures code == Gather(page[e.ws..], CodePositions(e.pos, index, len))
  {
    var spare, own := page[e.ws..], e.pos[index..index + len];
    SlicesWithin(e, index, len);
    var gaps := FindGap(own);
    if gaps {
      CopyInto(oob, 0, spare);
      assert oob[..] == spare;
      code := GatherCodes(oob[..], e.pos[0..len]);
    } else {
      FetchStretch(oob, spare, own);
      code := GatherCodes(oob[..], own);
    }
  }

  /** num steps of a page from step start, corrected with the code bytes nand_read_subpage picks */
  ghost function PickedFragment(e: Ecc, page: Page, start: nat, num: nat): (r: Fixed)
    requires |page| == e.ws + e.oobSize && start + num <= e.steps
    ensures |r.data| == Times(num, e.size)
  {
    var at, index := Times(start, e.size), Times(start, e.bytes);
    FragmentFits(e, start, num);
    FixAll(e, page[at..at + Times(num, e.size)],
           Gather(page[e.ws..], CodePositions(e.pos, index, Times(num, e.bytes))), num)
  }

  /** nand_read_subpage once the steps are known: they are read, and corrected in place in the page buffer. */
  method ReadSteps(e: Ecc, page: Page, buf: array<byte>, oob: array<byte>, start: nat, num: nat)
    returns (failed: nat, corrected: nat, at: nat, size: nat)
    requires |page| == e.ws + e.oobSize && buf.Length == e.ws && oob.Length == e.oobSize && buf != oob
    requires start + num <= e.steps
    modifies buf, oob
    ensures at == Times(start, e.size) && size == Times(num, e.size) && at + size <= e.ws
    ensures Fixed(buf[at..at + size], failed, corrected) == PickedFragment(e, page, start, num)
    ensures buf[..at] == old(buf[..at]) && buf[at + size..] == old(buf[at + size..])
  {
    FragmentFits(e, start, num);
    at, size := Times(start, e.size), Times(num, e.size);
    CopyFragment(buf, page, at, size);
    var ecc := CalculateAll(e, buf[at..at + size], num);
    var code := FetchCodes(e, page, oob, Times(start, e.bytes), Times(num, e.bytes));
    failed, corrected := CorrectAll(e, buf, at, num, code, ecc);
  }

  /** nand_read_subpage: the steps that hold the requested bytes */
  method ReadSubpage(e: Ecc, page: Page, buf: array<byte>, oob: array<byte>, offs: nat, len: nat)
    returns (failed: nat, corrected: nat, start: nat, num: nat, at: nat, size: nat)
    requires |page| == e.ws + e.oobSize && buf.Length == e.ws && oob.Length == e.oobSize && buf != oob
    requires 0 < offs + len <= e.ws
    modifies buf, oob
    ensures start == offs / e.size && start + num == (offs + len - 1) / e.size + 1 && start + num <= e.steps
    ensures at == Times(start, e.size) && size == Times(num, e.size) && at <= offs && offs + len <= at + size <= e.ws
    ensures Fixed(buf[at..at + size], failed, corrected) == PickedFragment(e, page, start, num)
    ensures buf[..at] == old(buf[..at]) && buf[at + size..] == old(buf[at + size..])
  {
    StepOrder(offs, len, e.size);
    start := offs / e.size;
    num := (offs + len - 1) / e.size + 1 - start;
    StepsOf(e, offs, len, start, num);
    failed, corrected, at, size := ReadSteps(e, page, buf, oob, start, num);
  }

  method CopyFragment(buf: array<byte>, page: Page, at: nat, size: nat)
    requires at + size <= buf.Length <= |page|
    modifies buf
    ensures buf[at..at + size] == page[at..at + size]
    ensures buf[..at] == old(buf[..at]) && buf[at + size..] == old(buf[at + size..])
  {
    CopyInto(buf, at, page[at..at + size]);
    assert buf[at..at + size] == buf[..][at..at + size];
    assert buf[..at] == buf[..][..at] && buf[at + size..] == buf[..][at + size..];
  }

  /** The code bytes picked for a fragment are its own, whatever the OOB area holds. */
  ghost predicate PicksRight(e: Ecc, index: nat, len: nat)
    requires index + len <= |e.pos|
  {
    forall oob: seq<byte> :: |oob| == e.oobSize ==>
      Gather(oob, CodePositions(e.pos, index, len)) == Gather(oob, e.pos[index..index + len])
  }

  /** They are its own exactly when its positions have no gap or it starts at step 0. */
  lemma PicksRightExactly(e: Ecc, start: nat, num: nat, index: nat, len: nat)
    requires start + num <= e.steps && index == Times(start, e.bytes) && len == Times(num, e.bytes)
    ensures index + len <= |e.pos|
    ensures PicksRight(e, index, len) <==> start == 0 || !HasGap(e.pos[index..index + len])
  {
    FragmentFits(e, start, num);
    if start > 0 && HasGap(e.pos[index..index + len]) {
      NoCodes(start, e.bytes);
      NoCodes(num, e.bytes);
      PicksWrong(e, index, len);
    }
  }

  lemma {:induction false} NoCodes(n: nat, bytes: nat)
    ensures bytes == 0 ==> Times(n, bytes) == 0
    ensures bytes > 0 && n > 0 ==> Times(n, bytes) > 0
  {
    if n > 0 {
      NoCodes(n - 1, bytes);
    }
  }

  /** With a gap, some OOB area gives the wrong code. */
  lemma PicksWrong(e: Ecc, index: nat, len: nat)
    requires 0 < len && 0 < index && index + len <= |e.pos| && HasGap(e.pos[index..index + len])
    ensures !PicksRight(e, index, len)
  {
    var blank := Blank(e.oobSize);
    var wrong, right := e.pos[0..len], e.pos[index..index + len];
    var oob := blank[right[0] := 0];
    GatherAt(oob, wrong, 0);
    GatherAt(oob, right, 0);
    assert e.pos[0] != e.pos[index];
    BlankAt(e.oobSize, wrong[0]);
    assert Gather(oob, wrong)[0] != Gather(oob, right)[0];
    assert CodePositions(e.pos, index, len) == wrong;
  }

  /** What the picked codes correct is what each step's own code corrects. */
  lemma PickedIsOwn(e: Ecc, page: Page, start: nat, num: nat)
    requires |page| == e.ws + e.oobSize && start + num <= e.steps
    requires Times(start, e.bytes) + Times(num, e.bytes) <= |e.pos|
    requires start == 0 || !HasGap(e.pos[Times(start, e.bytes)..Times(start, e.bytes) + Times(num, e.bytes)])
    ensures PickedFragment(e, page, start, num) == SwFragment(e, page, start, num)
  {
    var index, len := Times(start, e.bytes), Times(num, e.bytes);
    assert CodePositions(e.pos, index, len) == e.pos[index..index + len];
  }

  // ---------------------------------------------------------------- partial against full

  /** Correcting two stretches of steps one after the other corrects them both. */
  lemma {:induction false} FixSplit(e: Ecc, d: seq<byte>, k: seq<byte>, d1: seq<byte>, d2: seq<byte>,
                                    k1: seq<byte>, k2: seq<byte>, m: nat, n: nat, mn: nat)
    requires |d1| == Times(m, e.size) && |d2| == Times(n, e.size) && d == d1 + d2
    requires |k1| == Times(m, e.bytes) && |k2| == Times(n, e.bytes) && k == k1 + k2
    requires mn == m + n && |d| == Times(mn, e.size) && |k| == Times(mn, e.bytes)
    ensures FixAll(e, d, k, mn) == Join(FixAll(e, d1, k1, m), FixAll(e, d2, k2, n))
    decreases m
  {
    var after := FixAll(e, d2, k2, n);
    if m == 0 {
      assert d == d2 && k == k2;
      assert Join(Fixed([], 0, 0), after) == after;
    } else {
      var d', k', d1', k1' := d[e.size..], k[e.bytes..], d1[e.size..], k1[e.bytes..];
      assert d' == d1' + d2 && k' == k1' + k2;
      FixSplit(e, d', k', d1', d2, k1', k2, m - 1, n, mn - 1);
      FixOne(e, d, k, d1, k1, mn, m, after);
    }
  }

  lemma FixOne(e: Ecc, d: seq<byte>, k: seq<byte>, d1: seq<byte>, k1: seq<byte>, mn: nat, m: nat, after: Fixed)
    requires 0 < m <= mn && |d| == Times(mn, e.size) && |k| == Times(mn, e.bytes)
    requires |d1| == Times(m, e.size) && |k1| == Times(m, e.bytes) && d1 <= d && k1 <= k
    requires FixAll(e, d[e.size..], k[e.bytes..], mn - 1) == Join(FixAll(e, d1[e.size..], k1[e.bytes..], m - 1), after)
    ensures FixAll(e, d, k, mn) == Join(FixAll(e, d1, k1, m), after)
  {
    assert d[..e.size] == d1[..e.size] && k[..e.bytes] == k1[..e.bytes];
    JoinAssoc(StepFix(e, d1[..e.size], k1[..e.bytes]), FixAll(e, d1[e.size..], k1[e.bytes..], m - 1), after);
  }

  lemma JoinAssoc(a: Fixed, b: Fixed, d: Fixed)
    ensures Join(a, Join(b, d)) == Join(Join(a, b), d)
  {
    assert a.data + (b.data + d.data) == a.data + b.data + d.data;
  }

  lemma {:induction false} GatherAppend(src: seq<byte>, p: seq<nat>, q: seq<nat>)
    requires Within(p, |src|) && Within(q, |src|)
    ensures Within(p + q, |src|) && Gather(src, p + q) == Gather(src, p) + Gather(src, q)
    decreases |p|
  {
    if p == [] {
      assert p + q == q;
    } else {
      assert (p + q)[1..] == p[1..] + q;
      GatherAppend(src, p[1..], q);
    }
  }
}

/** The partial page read against the full one */
module SubpageRefinement {
  import opened Bytes
  import opened Geometry
  import opened OobLayout
  import opened NandSpec
  import opened SwEcc

  /** A fragment is its first steps, then the others. */
  lemma FragmentSplit(e: Ecc, page: Page, start: nat, m: nat, n: nat, mid: nat, mn: nat)
    requires |page| == e.ws + e.oobSize && mid == start + m && mn == m + n && start + mn <= e.steps
    ensures SwFragment(e, page, start, mn) == Join(SwFragment(e, page, start, m), SwFragment(e, page, mid, n))
  {
    FragmentFits(e, start, mn);
    TimesAdd(start, m, e.size);
    TimesAdd(m, n, e.size);
    TimesAdd(start, m, e.bytes);
    TimesAdd(m, n, e.bytes);
    SplitAt(e, page, m, n, mn, Times(start, e.size), Times(mid, e.size), Times(m, e.size), Times(n, e.size),
            Times(mn, e.size), Times(start, e.bytes), Times(mid, e.bytes), Times(m, e.bytes), Times(n, e.bytes),
            Times(mn, e.bytes));
  }

  lemma SplitAt(e: Ecc, page: Page, m: nat, n: nat, mn: nat, at: nat, at2: nat, md: nat, nd: nat, mnd: nat,
                index: nat, index2: nat, mc: nat, nc: nat, mnc: nat)
    requires |page| == e.ws + e.oobSize && mn == m + n && at + mnd <= e.ws && index + mnc <= |e.pos|
    requires at2 == at + md && mnd == md + nd && index2 == index + mc && mnc == mc + nc
    requires md == Times(m, e.size) && nd == Times(n, e.size) && mnd == Times(mn, e.size)
    requires mc == Times(m, e.bytes) && nc == Times(n, e.bytes) && mnc == Times(mn, e.bytes)
    ensures StepStretch(e, page, at, mnd, index, mnc, mn) ==
            Join(StepStretch(e, page, at, md, index, mc, m), StepStretch(e, page, at2, nd, index2, nc, n))
  {
    JoinSlices(page, at, md, nd, at2, mnd);
    JoinCodes(e, page, index, mc, nc, index2, mnc);
    StretchIs(e, page, at, mnd, index, mnc, mn);
    StretchIs(e, page, at, md, index, mc, m);
    StretchIs(e, page, at2, nd, index2, nc, n);
    FixSplit(e, page[at..at + mnd], CodesAt(e, page, index, mnc), page[at..at + md], page[at2..at2 + nd],
             CodesAt(e, page, index, mc), CodesAt(e, page, index2, nc), m, n, mn);
  }

  lemma StretchIs(e: Ecc, page: Page, at: nat, size: nat, index: nat, len: nat, n: nat)
    requires |page| == e.ws + e.oobSize && at + size <= e.ws && index + len <= |e.pos|
    requires size == Times(n, e.size) && len == Times(n, e.bytes)
    ensures StepStretch(e, page, at, size, index, len, n) == FixAll(e, page[at..at + size], CodesAt(e, page, index, len), n)
  {
  }

  lemma JoinCodes(e: Ecc, page: Page, index: nat, mc: nat, nc: nat, index2: nat, mnc: nat)
    requires |page| == e.ws + e.oobSize && index + mnc <= |e.pos| && index2 == index + mc && mnc == mc + nc
    ensures CodesAt(e, page, index, mnc) == CodesAt(e, page, index, mc) + CodesAt(e, page, index2, nc)
  {
    var q1, q2 := e.pos[index..index + mc], e.pos[index2..index2 + nc];
    JoinSlices(e.pos, index, mc, nc, index2, mnc);
    GatherAppend(page[e.ws..], q1, q2);
  }

  lemma JoinSlices<T>(s: seq<T>, at: nat, m: nat, n: nat, mid: nat, mn: nat)
    requires at + mn <= |s| && mid == at + m && mn == m + n
    ensures s[at..at + mn] == s[at..at + m] + s[mid..mid + n]
  {
  }

  function AsFixed(r: PageOut): Fixed {
    Fixed(r.data, r.failed, r.corrected)
  }

  lemma WholeStretch(e: Ecc, page: Page)
    requires |page| == e.ws + e.oobSize
    ensures SwFragment(e, page, 0, e.steps) == AsFixed(SwDecode(e, page))
  {
    assert page[0..0 + e.ws] == page[..e.ws] && e.pos[0..0 + |e.pos|] == e.pos;
  }

  /** A full read is the fragment before, the fragment itself and the fragment after, counts included. */
  lemma FullReadIsFragments(e: Ecc, page: Page, start: nat, num: nat, end: nat, after: nat)
    requires |page| == e.ws + e.oobSize && end == start + num && end + after == e.steps
    ensures AsFixed(SwDecode(e, page)) ==
            Join(SwFragment(e, page, 0, start), Join(SwFragment(e, page, start, num), SwFragment(e, page, end, after)))
  {
    WholeStretch(e, page);
    ThreeFragments(e, page, start, num, end, after);
  }

  lemma ThreeFragments(e: Ecc, page: Page, start: nat, num: nat, end: nat, after: nat)
    requires |page| == e.ws + e.oobSize && end == start + num && end + after == e.steps
    ensures SwFragment(e, page, 0, e.steps) ==
            Join(SwFragment(e, page, 0, start), Join(SwFragment(e, page, start, num), SwFragment(e, page, end, after)))
  {
    FragmentSplit(e, page, start, num, after, end, num + after);
    FragmentSplit(e, page, 0, start, num + after, start, e.steps);
  }

  /** What nand_read_subpage delivers for a stretch of the page */
  ghost function SwPart(e: Ecc, page: Page, offs: nat, len: nat): PageOut
    requires |page| == e.ws + e.oobSize && 0 < offs + len <= e.ws
  {
    StepOrder(offs, len, e.size);
    var start := offs / e.size;
    var num := (offs + len - 1) / e.size + 1 - start;
    StepsOf(e, offs, len, start, num);
    var f := PickedFragment(e, page, start, num);
    PageOut(f.data[offs - Times(start, e.size)..][..len], [], f.failed, f.corrected)
  }

  /** A partial read corrects the steps that hold the stretch, each with its own code. */
  lemma PartIsOwn(e: Ecc, page: Page, offs: nat, len: nat, start: nat, num: nat)
    requires |page| == e.ws + e.oobSize && 0 < offs + len <= e.ws && !HasGap(e.pos)
    requires start == offs / e.size && start + num == (offs + len - 1) / e.size + 1
    ensures start + num <= e.steps
    ensures var at, own := Times(start, e.size), SwFragment(e, page, start, num);
            at <= offs && offs + len <= at + |own.data|
            && SwPart(e, page, offs, len) == PageOut(own.data[offs - at..][..len], [], own.failed, own.corrected)
  {
    StepsOf(e, offs, len, start, num);
    FragmentFits(e, start, num);
    NoGapWithin(e.pos, Times(start, e.bytes), Times(num, e.bytes));
    PickedIsOwn(e, page, start, num);
  }

  /**
   With contiguous ECC positions a partial read delivers the bytes a full read would, and the counts
   of exactly the steps it covers.
   */
  lemma SubpageRefinesPage(e: Ecc, page: Page, offs: nat, len: nat, start: nat, end: nat)
    requires |page| == e.ws + e.oobSize && 0 < offs + len <= e.ws && !HasGap(e.pos)
    requires start == offs / e.size && end == (offs + len - 1) / e.size + 1
    ensures start <= end <= e.steps && (len > 0 ==> start < end)
    ensures var part, full := SwPart(e, page, offs, len), SwDecode(e, page);
            var before, after := SwFragment(e, page, 0, start), SwFragment(e, page, end, e.steps - end);
            && part.data == full.data[offs..offs + len]
            && part.failed == full.failed - before.failed - after.failed
            && part.corrected == full.corrected - before.corrected - after.corrected
    ensures SwPart(e, page, offs, len).failed <= SwDecode(e, page).failed
    ensures SwPart(e, page, offs, len).corrected <= SwDecode(e, page).corrected
  {
    StepOrder(offs, len, e.size);
    var num := end - start;
    PartIsOwn(e, page, offs, len, start, num);
    FullReadIsFragments(e, page, start, num, end, e.steps - end);
    MiddlePart(SwDecode(e, page), SwFragment(e, page, 0, start), SwFragment(e, page, start, num),
               SwFragment(e, page, end, e.steps - end), SwPart(e, page, offs, len), offs, len);
  }

  lemma MiddlePart(full: PageOut, before: Fixed, own: Fixed, after: Fixed, part: PageOut, offs: nat, len: nat)
    requires AsFixed(full) == Join(before, Join(own, after))
    requires |before.data| <= offs && offs + len <= |before.data| + |own.data|
    requires part == PageOut(own.data[offs - |before.data|..][..len], [], own.failed, own.corrected)
    ensures part.data == full.data[offs..offs + len]
    ensures part.failed == full.failed - before.failed - after.failed
    ensures part.corrected == full.corrected - before.corrected - after.corrected
  {
    MiddleSlice(before.data, own.data, after.data, offs, len);
  }

  lemma NoGapWithin(pos: seq<nat>, index: nat, len: nat)
    requires index + len <= |pos| && !HasGap(pos)
    ensures !HasGap(pos[index..index + len])
  {
    var part := pos[index..index + len];
    forall i | 0 <= i < |part| - 1 ensures part[i] + 1 == part[i + 1] {
      assert pos[index + i] + 1 == pos[index + i + 1];
    }
  }

  lemma MiddleSlice(a: seq<byte>, b: seq<byte>, z: seq<byte>, offs: nat, len: nat)
    requires |a| <= offs && offs + len <= |a| + |b|
    ensures (a + (b + z))[offs..offs + len] == b[offs - |a|..][..len]
  {
  }
}
