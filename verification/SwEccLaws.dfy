/** Software ECC step by step: what a page's codes are, what each correction does, and what a read makes of them. */
module SwEccLaws {
  import opened Bytes
  import opened Counting
  import opened Geometry
  import opened Pieces
  import opened OobLayout
  import opened NandSpec
  import opened PageCache
  import opened ReadLaws
  import opened SwEcc
  import opened SwNand

  // ---------------------------------------------------------------- the verdicts of the steps

  /** The data of step k of a page, and the code stored for it */
  function StepData(e: Ecc, page: Page, k: nat): (r: seq<byte>)
    requires |page| == e.ws + e.oobSize && k < e.steps
    ensures |r| == e.size
  {
    PieceFits(e.steps, e.size, k);
    PieceAt(page[..e.ws], e.size, k)
  }

  function StepCode(e: Ecc, page: Page, k: nat): seq<byte>
    requires |page| == e.ws + e.oobSize && k < e.steps
  {
    PieceFits(e.steps, e.bytes, k);
    Gather(page[e.ws..], e.pos[Times(k, e.bytes)..Times(k, e.bytes) + e.bytes])
  }

  /** What ecc.correct makes of step k, given its code and the code calculated from its data */
  function Verdict(e: Ecc, page: Page, k: nat): (r: Fix)
    requires |page| == e.ws + e.oobSize && k < e.steps
    ensures |r.data| == e.size
  {
    Correct(e, StepData(e, page, k), StepCode(e, page, k), Calc(e, StepData(e, page, k)))
  }

  /** Step k of the page cannot be corrected. */
  predicate StepFails(e: Ecc, page: Page, k: nat) {
    |page| == e.ws + e.oobSize && k < e.steps && Verdict(e, page, k).stat < 0
  }

  function FailTest(e: Ecc, page: Page): nat -> bool {
    (k: nat) => StepFails(e, page, k)
  }

  /** The steps from k on that cannot be corrected */
  ghost function FailedFrom(e: Ecc, page: Page, k: nat): set<nat> {
    Meeting(FailTest(e, page), k, e.steps)
  }

  /** The corrected bits of the steps from k on */
  function CorrectedFrom(e: Ecc, page: Page, k: nat): nat
    requires |page| == e.ws + e.oobSize && k <= e.steps
    decreases e.steps - k
  {
    if k == e.steps then 0
    else var stat := Verdict(e, page, k).stat;
         (if stat > 0 then stat else 0) + CorrectedFrom(e, page, k + 1)
  }

  // ---------------------------------------------------------------- the loop against them

  /** What is left of data and codes at step k */
  ghost predicate AtStep(e: Ecc, page: Page, k: nat, data: seq<byte>, codes: seq<byte>, n: nat) {
    && |page| == e.ws + e.oobSize && k + n == e.steps
    && Times(k, e.size) <= e.ws && Times(k, e.bytes) <= |e.pos|
    && data == page[..e.ws][Times(k, e.size)..] && codes == Gather(page[e.ws..], e.pos)[Times(k, e.bytes)..]
    && |data| == Times(n, e.size) && |codes| == Times(n, e.bytes)
  }

  lemma StepHere(e: Ecc, page: Page, k: nat, data: seq<byte>, codes: seq<byte>, n: nat)
    requires AtStep(e, page, k, data, codes, n) && n > 0
    ensures data[..e.size] == StepData(e, page, k) && codes[..e.bytes] == StepCode(e, page, k)
    ensures AtStep(e, page, k + 1, data[e.size..], codes[e.bytes..], n - 1)
  {
    PieceFits(e.steps, e.size, k);
    PieceFits(e.steps, e.bytes, k);
    CodeHere(e, page, k, codes[..e.bytes]);
  }

  lemma CodeHere(e: Ecc, page: Page, k: nat, code: seq<byte>)
    requires |page| == e.ws + e.oobSize && k < e.steps && Times(k, e.bytes) + e.bytes <= |e.pos|
    requires code == Gather(page[e.ws..], e.pos)[Times(k, e.bytes)..][..e.bytes]
    ensures code == StepCode(e, page, k)
  {
    GatherSlice(page[e.ws..], e.pos, Times(k, e.bytes), e.bytes);
  }

  lemma GatherSlice(oob: seq<byte>, pos: seq<nat>, at: nat, n: nat)
    requires Within(pos, |oob|) && at + n <= |pos|
    ensures Gather(oob, pos)[at..][..n] == Gather(oob, pos[at..at + n])
  {
    var l, r := Gather(oob, pos)[at..][..n], Gather(oob, pos[at..at + n]);
    forall i | 0 <= i < n ensures l[i] == r[i] {
      GatherAt(oob, pos, at + i);
      GatherAt(oob, pos[at..at + n], i);
    }
  }

  lemma OneFailedLess(e: Ecc, page: Page, k: nat)
    requires k < e.steps
    ensures |FailedFrom(e, page, k)| == (if StepFails(e, page, k) then 1 else 0) + |FailedFrom(e, page, k + 1)|
  {
    OneLess(FailTest(e, page), k, e.steps);
  }

  /** From step k on: the failed steps are counted, and the bits of the others added up. */
  lemma {:induction false} CountsFrom(e: Ecc, page: Page, k: nat, data: seq<byte>, codes: seq<byte>, n: nat)
    requires AtStep(e, page, k, data, codes, n)
    ensures FixAll(e, data, codes, n).failed == |FailedFrom(e, page, k)|
    ensures FixAll(e, data, codes, n).corrected == CorrectedFrom(e, page, k)
    decreases n
  {
    if n == 0 {
      assert FailedFrom(e, page, k) == {};
    } else {
      StepHere(e, page, k, data, codes, n);
      OneFailedLess(e, page, k);
      CountsFrom(e, page, k + 1, data[e.size..], codes[e.bytes..], n - 1);
    }
  }

  lemma FromTheStart(e: Ecc, page: Page)
    requires |page| == e.ws + e.oobSize
    ensures AtStep(e, page, 0, page[..e.ws], Gather(page[e.ws..], e.pos), e.steps)
  {
    assert page[..e.ws][0..] == page[..e.ws];
    assert Gather(page[e.ws..], e.pos)[0..] == Gather(page[e.ws..], e.pos);
  }

  /** The two counters of a page read: how many of its steps fail, and the bits corrected in the others */
  lemma DecodeCounts(e: Ecc, page: Page)
    requires |page| == e.ws + e.oobSize
    ensures SwDecode(e, page).failed == |FailedFrom(e, page, 0)| && SwDecode(e, page).corrected == CorrectedFrom(e, page, 0)
  {
    FromTheStart(e, page);
    CountsFrom(e, page, 0, page[..e.ws], Gather(page[e.ws..], e.pos), e.steps);
  }

  lemma FirstFixed(e: Ecc, page: Page, k: nat, data: seq<byte>, codes: seq<byte>, n: nat)
    requires AtStep(e, page, k, data, codes, n) && n > 0
    ensures AtStep(e, page, k + 1, data[e.size..], codes[e.bytes..], n - 1)
    ensures FixAll(e, data, codes, n).data ==
            Verdict(e, page, k).data + FixAll(e, data[e.size..], codes[e.bytes..], n - 1).data
  {
    StepHere(e, page, k, data, codes, n);
  }

  lemma {:induction false} DataFrom(e: Ecc, page: Page, k: nat, data: seq<byte>, codes: seq<byte>, n: nat, j: nat, q: nat)
    requires AtStep(e, page, k, data, codes, n) && j < n && q == k + j
    ensures IsPiece(FixAll(e, data, codes, n).data, e.size, j, Verdict(e, page, q).data)
    decreases n
  {
    FirstFixed(e, page, k, data, codes, n);
    var rest := FixAll(e, data[e.size..], codes[e.bytes..], n - 1).data;
    if j == 0 {
      FirstPiece(Verdict(e, page, k).data, rest, e.size);
    } else {
      DataFrom(e, page, k + 1, data[e.size..], codes[e.bytes..], n - 1, j - 1, q);
      LaterPiece(Verdict(e, page, k).data, rest, e.size, j, Verdict(e, page, q).data);
    }
  }

  /** The data of a page read, step by step; the OOB area comes as it is. */
  lemma DecodeData(e: Ecc, page: Page, k: nat)
    requires |page| == e.ws + e.oobSize && k < e.steps
    ensures IsPiece(SwDecode(e, page).data, e.size, k, Verdict(e, page, k).data)
    ensures SwDecode(e, page).oob == page[e.ws..]
  {
    FromTheStart(e, page);
    DataFrom(e, page, 0, page[..e.ws], Gather(page[e.ws..], e.pos), e.steps, k, k);
  }

  // ---------------------------------------------------------------- the return code

  /** Some step cannot be corrected. */
  ghost predicate Broken(e: Ecc, page: Page)
    requires |page| == e.ws + e.oobSize
  {
    exists k: nat :: StepFails(e, page, k)
  }

  /** Some step has corrected bits. */
  ghost predicate Mended(e: Ecc, page: Page)
    requires |page| == e.ws + e.oobSize
  {
    exists k: nat :: k < e.steps && Verdict(e, page, k).stat > 0
  }

  lemma {:induction false} SomeCorrectedFrom(e: Ecc, page: Page, k: nat)
    requires |page| == e.ws + e.oobSize && k <= e.steps
    ensures CorrectedFrom(e, page, k) > 0 <==> exists j: nat :: k <= j < e.steps && Verdict(e, page, j).stat > 0
    decreases e.steps - k
  {
    if k < e.steps {
      SomeCorrectedFrom(e, page, k + 1);
    }
  }

  lemma CountsMean(e: Ecc, page: Page)
    requires |page| == e.ws + e.oobSize
    ensures SwDecode(e, page).failed > 0 <==> Broken(e, page)
    ensures SwDecode(e, page).corrected > 0 <==> Mended(e, page)
  {
    DecodeCounts(e, page);
    SomeCorrectedFrom(e, page, 0);
    if Broken(e, page) {
      var k: nat :| StepFails(e, page, k);
      assert k in FailedFrom(e, page, 0);
    } else {
      assert FailedFrom(e, page, 0) == {};
    }
  }

  /**
   A read of whole pages: -EBADMSG exactly when a step of a page it touches cannot be corrected, -EUCLEAN exactly when all
   can and some had to be, 0 exactly when no step of theirs has a wrong bit.
   */
  lemma ReadVerdict(c: Config, e: Ecc, cells: seq<Page>, p: nat, col: nat, len: nat, mode: Mode, oq: OobRead, pages: nat, ret: Ret)
    requires SwDevice(c, e) && CanRead(c, cells, p, col, len, mode, oq) && WholePages(c, mode, oq)
    requires pages == PagesRead(c.ws, col, len)
    requires var r := ReadPages(c, cells, p, col, len, mode, oq); ret == ReadRet(r.failed, r.corrected)
    ensures p + pages <= |cells|
    ensures ret == EBadMsg <==> exists q: nat :: p <= q < p + pages && Broken(e, cells[q])
    ensures ret == EUClean <==> && (forall q: nat :: p <= q < p + pages ==> !Broken(e, cells[q]))
                                && (exists q: nat :: p <= q < p + pages && Mended(e, cells[q]))
    ensures ret == Ok <==> forall q: nat :: p <= q < p + pages ==> !Broken(e, cells[q]) && !Mended(e, cells[q])
  {
    CountsExact(c, cells, p, col, len, mode, oq, pages);
    forall q: nat | p <= q < p + pages
      ensures Decode(c, cells[q]).failed > 0 <==> Broken(e, cells[q])
      ensures Decode(c, cells[q]).corrected > 0 <==> Mended(e, cells[q])
    {
      DecodeMeans(c, e, cells[q]);
    }
    VerdictOf(c, e, cells, p, pages);
  }

  lemma DecodeMeans(c: Config, e: Ecc, page: Page)
    requires SwDevice(c, e) && |page| == c.ws + c.oobSize
    ensures Decode(c, page).failed > 0 <==> Broken(e, page)
    ensures Decode(c, page).corrected > 0 <==> Mended(e, page)
  {
    CountsMean(e, page);
    assert Decode(c, page) == SwDecode(e, page);
  }

  lemma VerdictOf(c: Config, e: Ecc, cells: seq<Page>, p: nat, pages: nat)
    requires ValidCells(c, cells) && p + pages <= |cells| && SwDevice(c, e)
    requires forall q: nat :: p <= q < p + pages ==> (Decode(c, cells[q]).failed > 0 <==> Broken(e, cells[q]))
    requires forall q: nat :: p <= q < p + pages ==> (Decode(c, cells[q]).corrected > 0 <==> Mended(e, cells[q]))
    ensures FailedIn(c, cells, p, pages) > 0 <==> exists q: nat :: p <= q < p + pages && Broken(e, cells[q])
    ensures CorrectedIn(c, cells, p, pages) > 0 <==> exists q: nat :: p <= q < p + pages && Mended(e, cells[q])
  {
    SomeIn(c, cells, p, pages);
  }

  // ---------------------------------------------------------------- the codes of a written page

  lemma {:induction false} CodesPiece(e: Ecc, data: seq<byte>, n: nat, k: nat)
    requires |data| == Times(n, e.size) && k < n
    ensures Times(k, e.size) + e.size <= |data| && Times(k, e.bytes) + e.bytes <= |Codes(e, data, n)|
    ensures PieceAt(Codes(e, data, n), e.bytes, k) == Calc(e, PieceAt(data, e.size, k))
    decreases n
  {
    PieceFits(n, e.size, k);
    PieceFits(n, e.bytes, k);
    if k > 0 {
      CodesPiece(e, data[e.size..], n - 1, k - 1);
      PieceOfRest(data, e.size, k);
    }
    PieceOfJoin(Calc(e, data[..e.size]), Codes(e, data[e.size..], n - 1), e.bytes, k);
  }

  /** A page is sent with its data in place, byte i of step k's code at position k * bytes + i of the table, */
  lemma EncodedCode(e: Ecc, data: seq<byte>, spare: seq<byte>, k: nat, i: nat, at: nat)
    requires |data| == e.ws && |spare| == e.oobSize && k < e.steps && i < e.bytes && at == Times(k, e.bytes) + i
    ensures at < |e.pos| && Times(k, e.size) + e.size <= e.ws
    ensures SwEncode(e, data, spare).bits[..e.ws] == data
    ensures SwEncode(e, data, spare).bits[e.ws + e.pos[at]] == Calc(e, PieceAt(data, e.size, k))[i]
  {
    PieceFits(e.steps, e.bytes, k);
    CodesPiece(e, data, e.steps, k);
    var codes := Codes(e, data, e.steps);
    ScatterAt(spare, e.pos, codes, at);
    assert codes[at] == PieceAt(codes, e.bytes, k)[i];
  }

  /** and every other OOB byte as it was staged. */
  lemma EncodedOther(e: Ecc, data: seq<byte>, spare: seq<byte>, x: nat)
    requires |data| == e.ws && |spare| == e.oobSize && x < e.oobSize && x !in e.pos
    ensures SwEncode(e, data, spare).bits[e.ws + x] == spare[x]
    ensures SwEncode(e, data, spare).oob == SwEncode(e, data, spare).bits[e.ws..]
  {
    ScatterOther(spare, e.pos, Codes(e, data, e.steps), x);
  }
}
