/**
 The S3C controller's pages for SLC chips: one-bit hardware ECC per 512-byte step, the codes in the OOB
 area, and a code of the OOB area itself in its last four bytes.
 */
module S3cSlc {
  import opened Bytes
  import opened Counting
  import opened Geometry
  import opened OobLayout

  function Flip(x: byte, b: nat): byte
    requires b < 8
  {
    x ^ Mask(b)
  }

  lemma FlipBack(x: byte, b: nat)
    requires b < 8
    ensures Flip(Flip(x, b), b) == x
  {
    XorTwice(x, Mask(b));
  }

  lemma XorTwice(x: byte, m: byte)
    ensures (x ^ m) ^ m == x
  {
  }

  /** nfmeccdata0 or nfmeccdata1: (high << 16) | low */
  datatype EccWord = EccWord(low: byte, high: byte)

  datatype SlcParams = SlcParams(
    size: nat, steps: nat, oobSize: nat,
    pos: seq<nat>,                                      // layout->eccpos
    code: seq<byte> -> seq<byte>,                       // NFMECC0 after the data has passed
    status: (seq<byte>, EccWord, EccWord) -> nat)       // NFMECCERR0, given the data and the two words to compare with

  /** The four code bytes of the OOB area itself start here. */
  function SpareCode(s: SlcParams): nat
    requires s.oobSize >= 4
  {
    s.oobSize - 4
  }

  ghost predicate ValidSlc(s: SlcParams) {
    && 0 < s.size <= 2048 && s.steps > 0 && 4 <= s.oobSize <= 2048
    && |s.pos| == Times(s.steps, 4) && s.pos == Range(PosBase(s.pos), |s.pos|)
    && PosBase(s.pos) + |s.pos| <= SpareCode(s)
    && forall d: seq<byte> :: |s.code(d)| == 4
  }

  function PosBase(pos: seq<nat>): nat {
    if pos == [] then 0 else pos[0]
  }

  /** A page layout with its ECC bytes in a row before the code of the OOB area */
  type Slc = s: SlcParams | ValidSlc(s)
    ghost witness SlcParams(1, 1, 8, Range(0, 4), (d: seq<byte>) => [0, 0, 0, 0], (d: seq<byte>, a: EccWord, b: EccWord) => 0)

  function CodeOf(s: Slc, d: seq<byte>): (r: seq<byte>)
    ensures |r| == 4
  {
    s.code(d)
  }

  function StatusOf(s: Slc, d: seq<byte>, w0: EccWord, w1: EccWord): nat {
    s.status(d, w0, w1)
  }

  /** The error type, byte and bit of a status word */
  function ErrType(w: nat): nat { w % 4 }
  function ErrByte(w: nat): nat { w / 128 % 2048 }
  function ErrBit(w: nat): (r: nat)
    ensures r < 8
  {
    w / 16 % 8
  }

  function Judge(s: Slc, d: seq<byte>, ecc: seq<byte>): nat
    requires |ecc| == 4
  {
    StatusOf(s, d, EccWord(ecc[0], ecc[1]), EccWord(ecc[2], ecc[3]))
  }

  /** What is asked of the engine: intact data is reported clean, and a single flipped bit is located. */
  ghost predicate GoodEngine(s: Slc) {
    && (forall d: seq<byte> :: |d| <= 2048 ==> Passes(s, d))
    && (forall d: seq<byte>, k: nat, b: nat :: k < |d| <= 2048 && b < 8 ==> Locates(s, d, k, b))
  }

  ghost predicate Passes(s: Slc, d: seq<byte>) {
    var c := CodeOf(s, d);
    s.status(d, EccWord(c[0], c[1]), EccWord(c[2], c[3])) % 4 == 0
  }

  ghost predicate Locates(s: Slc, d: seq<byte>, k: nat, b: nat)
    requires k < |d| && b < 8
  {
    var c := CodeOf(s, d);
    Names(s.status(d[k := Flip(d[k], b)], EccWord(c[0], c[1]), EccWord(c[2], c[3])), k, b)
  }

  /** The status word has 1 in bits 0 and 1, b in bits 4 to 6 and k in bits 7 to 17. */
  ghost predicate Names(w: nat, k: nat, b: nat) {
    w % 4 == 1 && w / 16 % 8 == b && w / 128 % 2048 == k
  }

  lemma NamesBits(w: nat, k: nat, b: nat)
    requires Names(w, k, b)
    ensures ErrType(w) == 1 && ErrByte(w) == k && ErrBit(w) == b
  {
  }

  /** The word that names byte k and bit b and nothing else */
  lemma NamedWord(k: nat, b: nat, w: nat)
    requires k < 2048 && b < 8 && w == 128 * k + 16 * b + 1
    ensures ErrType(w) == 1 && ErrByte(w) == k && ErrBit(w) == b
  {
    assert w == 16 * (8 * k + b) + 1;
    assert w / 16 == 8 * k + b && w / 128 == k;
  }

  /** What happened to one step between the write and the read: nothing, or one flipped bit */
  datatype Fault = Intact | Flipped(byte: nat, bit: nat)

  ghost predicate ValidFault(f: Fault, size: nat) {
    f.Flipped? ==> f.byte < size && f.bit < 8
  }

  ghost function Damaged(d: seq<byte>, f: Fault): (r: seq<byte>)
    requires ValidFault(f, |d|)
    ensures |r| == |d|
  {
    if f.Intact? then d else d[f.byte := Flip(d[f.byte], f.bit)]
  }

  // ---------------------------------------------------------------- what a page holds

  /** The codes of n steps of data */
  function Codes(s: Slc, data: seq<byte>, n: nat): (r: seq<byte>)
    requires |data| == Times(n, s.size)
    ensures |r| == Times(n, 4)
    decreases n
  {
    if n == 0 then [] else CodeOf(s, data[..s.size]) + Codes(s, data[s.size..], n - 1)
  }

  /** The OOB area as it is stored: the step codes in place, then the code of all that. */
  function StoredOob(s: Slc, data: seq<byte>, oob: seq<byte>): (r: seq<byte>)
    requires |data| == Times(s.steps, s.size) && |oob| == s.oobSize
    ensures |r| == s.oobSize
  {
    RangeWithin(PosBase(s.pos), |s.pos|, s.oobSize);
    var o := Scatter(oob, s.pos, Codes(s, data, s.steps));
    o[..SpareCode(s)] + CodeOf(s, o[..SpareCode(s)])
  }

  // ---------------------------------------------------------------- write

  /** s3c_nand_write_page_1bit: the bytes sent to the device; the staging buffer keeps the stored OOB area. */
  method WritePage1bit(s: Slc, buf: seq<byte>, oob: array<byte>) returns (bits: seq<byte>)
    requires |buf| == Times(s.steps, s.size) && oob.Length == s.oobSize
    modifies oob
    ensures oob[..] == StoredOob(s, buf, old(oob[..])) && bits == buf + oob[..]
  {
    var codes;
    bits, codes := SendData(s, buf);
    StoreCodes(s, oob, codes);
    ghost var o := oob[..];
    var spare := SpareCode(s);
    assert oob[..spare] == o[..spare];
    bits := bits + oob[..spare];
    StoreSpareCode(s, oob);
    bits := bits + oob[spare..];
    assert oob[spare..] == oob[..][spare..] && oob[..][..spare] == o[..spare];
    assert o[..spare] + oob[..][spare..] == oob[..];
    assert bits == buf + (o[..spare] + oob[..][spare..]);
  }

  /** The main area: every step is sent, and its code taken from the engine. */
  method SendData(s: Slc, buf: seq<byte>) returns (bits: seq<byte>, codes: seq<byte>)
    requires |buf| == Times(s.steps, s.size)
    ensures bits == buf && codes == Codes(s, buf, s.steps)
  {
    bits, codes := [], [];
    var p, left := buf, s.steps;
    while left != 0
      invariant 0 <= left && |p| == Times(left, s.size)
      invariant codes + Codes(s, p, left) == Codes(s, buf, s.steps)
      invariant bits + p == buf
    {
      CodesCons(s, codes, p, left);
      bits := bits + p[..s.size];
      codes := codes + CodeOf(s, p[..s.size]);
      p, left := p[s.size..], left - 1;
    }
  }

  lemma CodesCons(s: Slc, codes: seq<byte>, p: seq<byte>, left: nat)
    requires left > 0 && |p| == Times(left, s.size)
    ensures codes + Codes(s, p, left) == codes + CodeOf(s, p[..s.size]) + Codes(s, p[s.size..], left - 1)
  {
  }

  /** oob_poi[eccpos[i]] = ecc_calc[i] */
  method StoreCodes(s: Slc, oob: array<byte>, codes: seq<byte>)
    requires oob.Length == s.oobSize && |codes| == |s.pos|
    modifies oob
    ensures Within(s.pos, s.oobSize) && oob[..] == Scatter(old(oob[..]), s.pos, codes)
  {
    RangeWithin(PosBase(s.pos), |s.pos|, s.oobSize);
    var i := 0;
    while i < |s.pos|
      invariant 0 <= i <= |s.pos|
      invariant Scatter(oob[..], s.pos[i..], codes[i..]) == Scatter(old(oob[..]), s.pos, codes)
    {
      ghost var before := oob[..];
      oob[s.pos[i]] := codes[i];
      assert oob[..] == before[s.pos[i] := codes[i]];
      assert s.pos[i..][1..] == s.pos[i + 1..] && codes[i..][1..] == codes[i + 1..];
      i := i + 1;
    }
  }

  /** The code of the OOB area goes into its last four bytes. */
  method StoreSpareCode(s: Slc, oob: array<byte>)
    requires oob.Length == s.oobSize
    modifies oob
    ensures oob[..SpareCode(s)] == old(oob[..SpareCode(s)])
    ensures oob[..] == old(oob[..SpareCode(s)]) + CodeOf(s, old(oob[..SpareCode(s)]))
  {
    CopyInto(oob, SpareCode(s), CodeOf(s, oob[..SpareCode(s)]));
    assert oob[..SpareCode(s)] == oob[..][..SpareCode(s)];
  }

  // ---------------------------------------------------------------- correction

  /** The buffer after the correction a status word asks for: at most the bit it names is flipped. */
  function AfterVerdict(dat: seq<byte>, at: nat, w: nat): (r: seq<byte>)
    requires ErrType(w) == 1 ==> at + ErrByte(w) < |dat|
    ensures |r| == |dat|
  {
    if ErrType(w) == 1 then dat[at + ErrByte(w) := Flip(dat[at + ErrByte(w)], ErrBit(w))] else dat
  }

  /** The SLC branch of s3c_nand_correct_data, on the bytes of the buffer from `at` on */
  method CorrectData(s: Slc, dat: array<byte>, at: nat, len: nat, ecc: seq<byte>) returns (ret: int)
    requires at + len <= dat.Length && |ecc| == 4
    requires ErrType(Judge(s, dat[at..at + len], ecc)) == 1 ==> at + ErrByte(Judge(s, dat[at..at + len], ecc)) < dat.Length
    modifies dat
    ensures var w := Judge(s, old(dat[at..at + len]), ecc);
            && ret == (if ErrType(w) == 0 then 0 else if ErrType(w) == 1 then 1 else -1)
            && dat[..] == AfterVerdict(old(dat[..]), at, w)
  {
    var w := StatusOf(s, dat[at..at + len], EccWord(ecc[0], ecc[1]), EccWord(ecc[2], ecc[3]));
    if w % 4 == 0 {
      ret := 0;
    } else if w % 4 == 1 {
      var k := w / 128 % 2048;
      dat[at + k] := dat[at + k] ^ Mask(w / 16 % 8);
      ret := 1;
    } else {
      ret := -1;
    }
  }

  /** With the code of the original, at most one flipped bit is put right and nothing is reported as failed. */
  method CorrectFlip(s: Slc, dat: array<byte>, at: nat, ghost orig: seq<byte>, ghost f: Fault, ecc: seq<byte>, len: nat)
    returns (ret: int)
    requires GoodEngine(s) && at + len <= dat.Length && len == |orig| <= 2048 && ecc == CodeOf(s, orig)
    requires ValidFault(f, len) && dat[at..at + len] == Damaged(orig, f)
    modifies dat
    ensures ret >= 0 && dat[..] == old(dat[..at]) + orig + old(dat[at + len..])
  {
    ghost var before, w := dat[..], Judge(s, Damaged(orig, f), CodeOf(s, orig));
    JudgeFault(s, orig, f);
    NamedInside(f, w, at, len, dat.Length);
    ret := CorrectData(s, dat, at, len, ecc);
    Restored(before, at, len, orig, f, w, dat[..]);
  }

  /** The engine's verdict on at most one flipped bit */
  lemma JudgeFault(s: Slc, orig: seq<byte>, f: Fault)
    requires GoodEngine(s) && |orig| <= 2048 && ValidFault(f, |orig|)
    ensures Verdict(f, Judge(s, Damaged(orig, f), CodeOf(s, orig)))
  {
    if f.Intact? {
      assert Passes(s, orig);
    } else {
      assert Locates(s, orig, f.byte, f.bit);
      NamesBits(Judge(s, Damaged(orig, f), CodeOf(s, orig)), f.byte, f.bit);
    }
  }

  lemma NamedInside(f: Fault, w: nat, at: nat, len: nat, size: nat)
    requires Verdict(f, w) && ValidFault(f, len) && at + len <= size
    ensures ErrType(w) == 1 ==> at + ErrByte(w) < size
  {
  }

  ghost predicate Verdict(f: Fault, w: nat) {
    if f.Intact? then ErrType(w) == 0 else ErrType(w) == 1 && ErrByte(w) == f.byte && ErrBit(w) == f.bit
  }

  lemma Restored(before: seq<byte>, at: nat, len: nat, orig: seq<byte>, f: Fault, w: nat, after: seq<byte>)
    requires at + len <= |before| && len == |orig| && ValidFault(f, len) && before[at..at + len] == Damaged(orig, f)
    requires Verdict(f, w) && after == AfterVerdict(before, at, w)
    ensures after == before[..at] + orig + before[at + len..]
  {
    if f.Intact? {
      assert before == before[..at] + before[at..at + len] + before[at + len..];
    } else {
      FlipBack(orig[f.byte], f.bit);
      Unflip(before, at, len, orig, f.byte, f.bit);
    }
  }

  lemma Unflip(before: seq<byte>, at: nat, len: nat, orig: seq<byte>, k: nat, b: nat)
    requires at + len <= |before| && len == |orig| && k < len && b < 8
    requires before[at..at + len] == orig[k := Flip(orig[k], b)] && Flip(Flip(orig[k], b), b) == orig[k]
    ensures before[at + k] == Flip(orig[k], b)
    ensures before[at + k := Flip(before[at + k], b)] == before[..at] + orig + before[at + len..]
  {
    assert before[at + k] == before[at..at + len][k];
    var l, r := before[at + k := Flip(before[at + k], b)], before[..at] + orig + before[at + len..];
    forall i | 0 <= i < |before| ensures l[i] == r[i] {
      if at <= i < at + len {
        assert before[i] == before[at..at + len][i - at];
      }
    }
  }

  // ---------------------------------------------------------------- read

  /** The OOB area is read, and corrected unless it carries a jffs2 mark. */
  method ReadSpare(s: Slc, stored: seq<byte>, oob: array<byte>)
    requires GoodEngine(s) && |stored| == s.oobSize == oob.Length && s.oobSize > 4
    requires stored[SpareCode(s)..] == CodeOf(s, stored[..SpareCode(s)])
    modifies oob
    ensures oob[..] == stored
  {
    CopyAll(oob, stored);
    if !(oob[2] == 0x85 && oob[3] == 0x19) {
      CorrectSpare(s, oob, stored, SpareCode(s));
    }
  }

  method CorrectSpare(s: Slc, oob: array<byte>, ghost stored: seq<byte>, spare: nat)
    requires GoodEngine(s) && |stored| == s.oobSize == oob.Length && spare == SpareCode(s) && oob[..] == stored
    requires stored[spare..] == CodeOf(s, stored[..spare])
    modifies oob
    ensures oob[..] == stored
  {
    SpareSlices(oob[..], spare);
    assert oob[0..0 + spare] == oob[..][0..0 + spare] && oob[spare..] == oob[..][spare..];
    var ret := CorrectFlip(s, oob, 0, stored[..spare], Intact, oob[spare..], spare);
    assert oob[..] == stored[..0] + stored[..spare] + stored[0 + spare..];
  }

  lemma SpareSlices(a: seq<byte>, spare: nat)
    requires spare <= |a|
    ensures a[0..0 + spare] == a[..spare] && a[..0] + a[..spare] + a[0 + spare..] == a
  {
  }

  /** The state of the main loop before step k: everything up to column `col` is restored. */
  ghost predicate Restoring(s: Slc, orig: seq<byte>, page: seq<byte>, buf: array<byte>, k: nat, col: nat)
    reads buf
  {
    && k <= s.steps && col == Times(k, s.size) <= buf.Length == |orig| <= |page|
    && PrefixRead(orig, buf, col)
  }

  ghost predicate PrefixRead(orig: seq<byte>, buf: array<byte>, col: nat)
    reads buf
    requires col <= buf.Length == |orig|
  {
    buf[..col] == orig[..col]
  }

  /** The bytes of step k */
  function StepOf(s: Slc, data: seq<byte>, k: nat): (r: seq<byte>)
    requires Times(k, s.size) + s.size <= |data|
    ensures |r| == s.size
  {
    data[Times(k, s.size)..Times(k, s.size) + s.size]
  }

  lemma StepAt(s: Slc, data: seq<byte>, k: nat, col: nat, end: nat)
    requires col == Times(k, s.size) && end == col + s.size <= |data|
    ensures data[col..end] == StepOf(s, data, k)
  {
  }

  /** Step k of the page is step k of the original with at most one flipped bit. */
  ghost predicate StepFaulty(s: Slc, orig: seq<byte>, page: seq<byte>, k: nat, f: Fault)
    requires Times(k, s.size) + s.size <= |orig| <= |page|
  {
    ValidFault(f, s.size) && StepOf(s, page, k) == Damaged(StepOf(s, orig, k), f)
  }

  ghost predicate PageFaulty(s: Slc, orig: seq<byte>, page: seq<byte>, faults: seq<Fault>) {
    && |faults| == s.steps && |orig| <= |page|
    && forall k :: 0 <= k < s.steps ==>
         Times(k, s.size) + s.size <= |orig| && StepFaulty(s, orig, page, k, faults[k])
  }

  /** The column offset of a step: step number times step size, and it fits. */
  lemma StepFits(s: Slc, k: nat)
    requires k < s.steps
    ensures Times(k, s.size) + s.size == Times(k + 1, s.size) <= Times(s.steps, s.size)
    ensures Times(k, 4) + 4 == Times(k + 1, 4) <= Times(s.steps, 4)
  {
    TimesAdd(k, 1, s.size);
    TimesMono(k + 1, s.steps, s.size);
    TimesAdd(k, 1, 4);
    TimesMono(k + 1, s.steps, 4);
  }

  /** The code bytes of step k in the stored OOB area are those of its data. */
  lemma {:induction false} CodeOfStep(s: Slc, data: seq<byte>, n: nat, k: nat)
    requires |data| == Times(n, s.size) && k < n
    ensures Times(k, s.size) + s.size <= |data| && Times(k, 4) + 4 <= Times(n, 4)
    ensures Codes(s, data, n)[Times(k, 4)..Times(k, 4) + 4] == CodeOf(s, data[Times(k, s.size)..Times(k, s.size) + s.size])
    decreases n
  {
    StepInside(k, n, s.size);
    StepInside(k, n, 4);
    var first, rest := CodeOf(s, data[..s.size]), Codes(s, data[s.size..], n - 1);
    if k == 0 {
      HeadSlices(data, s.size, first, rest);
    } else {
      var at, ix := Times(k - 1, s.size), Times(k - 1, 4);
      CodeOfStep(s, data[s.size..], n - 1, k - 1);
      assert Times(k, s.size) == s.size + at && Times(k, 4) == 4 + ix;
      TailSlices(data, s.size, at, first, rest, ix);
    }
  }

  lemma StepInside(k: nat, n: nat, size: nat)
    requires k < n
    ensures Times(k, size) + size <= Times(n, size)
  {
    TimesAdd(k, n - k, size);
  }

  lemma HeadSlices(data: seq<byte>, size: nat, first: seq<byte>, rest: seq<byte>)
    requires size <= |data| && |first| == 4
    ensures (first + rest)[0..0 + 4] == first && data[0..0 + size] == data[..size]
  {
  }

  lemma TailSlices(data: seq<byte>, size: nat, at: nat, first: seq<byte>, rest: seq<byte>, ix: nat)
    requires size + at + size <= |data| && |first| == 4 && ix + 4 <= |rest|
    ensures data[size..][at..at + size] == data[size + at..size + at + size]
    ensures (first + rest)[4 + ix..4 + ix + 4] == rest[ix..ix + 4]
  {
  }

  /** The code of step k is stored in the four bytes of the table that are its own. */
  lemma StoredCode(s: Slc, data: seq<byte>, oob: seq<byte>, k: nat, at: nat)
    requires |data| == Times(s.steps, s.size) && |oob| == s.oobSize && k < s.steps
    requires at == PosBase(s.pos) + Times(k, 4)
    ensures at + 4 <= SpareCode(s) && Times(k, s.size) + s.size <= |data|
    ensures StoredOob(s, data, oob)[at..at + 4] == CodeOf(s, data[Times(k, s.size)..Times(k, s.size) + s.size])
  {
    StepFits(s, k);
    CodeOfStep(s, data, s.steps, k);
    var codes, base := Codes(s, data, s.steps), PosBase(s.pos);
    RangeWithin(base, |s.pos|, s.oobSize);
    ScatterRange(oob, base, codes);
    var o := Scatter(oob, s.pos, codes);
    InMiddle(oob[..base], codes, oob[base + |codes|..], Times(k, 4));
    InFront(o, CodeOf(s, o[..SpareCode(s)]), SpareCode(s), at);
  }

  lemma InMiddle(a: seq<byte>, codes: seq<byte>, z: seq<byte>, i: nat)
    requires i + 4 <= |codes|
    ensures (a + codes + z)[|a| + i..|a| + i + 4] == codes[i..i + 4]
  {
  }

  lemma InFront(o: seq<byte>, code: seq<byte>, spare: nat, at: nat)
    requires at + 4 <= spare <= |o|
    ensures (o[..spare] + code)[at..at + 4] == o[at..at + 4]
  {
  }

  /** The code bytes of step k, where the read loop looks for them, are those of its data. */
  ghost predicate StepCoded(s: Slc, orig: seq<byte>, oob: seq<byte>, k: nat) {
    var at := PosBase(s.pos) + Times(k, 4);
    at + 4 <= |oob| && Times(k, s.size) + s.size <= |orig| && CodeAt(oob, at) == CodeOf(s, StepOf(s, orig, k))
  }

  function CodeAt(oob: seq<byte>, at: nat): seq<byte>
    requires at + 4 <= |oob|
  {
    oob[at..at + 4]
  }

  lemma AllStepsCoded(s: Slc, data: seq<byte>, oob: seq<byte>)
    requires |data| == Times(s.steps, s.size) && |oob| == s.oobSize
    ensures forall k :: 0 <= k < s.steps ==> StepCoded(s, data, StoredOob(s, data, oob), k)
  {
    forall k | 0 <= k < s.steps ensures StepCoded(s, data, StoredOob(s, data, oob), k) {
      StoredCode(s, data, oob, k, PosBase(s.pos) + Times(k, 4));
    }
  }

  /** The column computed for the next step is the one the data ends at. */
  lemma NextColumn(s: Slc, k: nat, col: nat, end: nat, k': nat)
    requires k < s.steps && col == Times(k, s.size) && end == col + s.size && k' == k + 1
    ensures s.size * k' == end == Times(k', s.size)
  {
    StepFits(s, k);
    TimesIsProduct(k', s.size);
  }

  /** One turn of the main loop: seek, read, correct. */
  method RestoreStep(s: Slc, ghost orig: seq<byte>, page: seq<byte>, buf: array<byte>, oob: seq<byte>, k: nat, col: nat,
                     ghost f: Fault)
    returns (stat: int, col': nat, k': nat)
    requires GoodEngine(s) && k < s.steps && |orig| == Times(s.steps, s.size) && StepCoded(s, orig, oob, k)
    requires Restoring(s, orig, page, buf, k, col) && Times(k, s.size) + s.size <= |orig| && StepFaulty(s, orig, page, k, f)
    modifies buf
    ensures stat >= 0 && k' == k + 1 && col' == s.size * k' && Restoring(s, orig, page, buf, k', col')
  {
    var at := PosBase(s.pos) + Times(k, 4);
    var ecc := CodeAt(oob, at);
    ghost var end;
    stat, end := ReadAndCorrect(s, orig, page, buf, k, col, ecc, f);
    k' := k + 1;
    NextColumn(s, k, col, end, k');
    col' := s.size * k';
  }

  /** read_buf of one step into its place, and its correction */
  method ReadAndCorrect(s: Slc, ghost orig: seq<byte>, page: seq<byte>, buf: array<byte>, ghost k: nat, col: nat,
                        ecc: seq<byte>, ghost f: Fault)
    returns (stat: int, ghost end: nat)
    requires GoodEngine(s) && col == Times(k, s.size) && Times(k, s.size) + s.size <= buf.Length == |orig| <= |page|
    requires ecc == CodeOf(s, StepOf(s, orig, k)) && PrefixRead(orig, buf, col) && StepFaulty(s, orig, page, k, f)
    modifies buf
    ensures stat >= 0 && end == col + s.size && PrefixRead(orig, buf, end)
  {
    end := col + s.size;
    StepAt(s, page, k, col, end);
    StepAt(s, orig, k, col, end);
    CopyInto(buf, col, page[col..col + s.size]);
    ghost var now := buf[..];
    Landed(now, old(buf[..]), page[col..end], col, end, orig);
    assert buf[col..col + s.size] == now[col..end];
    ghost var step := orig[col..end];
    stat := CorrectFlip(s, buf, col, step, f, ecc, s.size);
    assert buf[..] == now[..col] + step + now[end..];
    Prefix(buf[..], now, orig, col, end);
    assert buf[..end] == buf[..][..end];
  }

  lemma Landed(now: seq<byte>, before: seq<byte>, got: seq<byte>, col: nat, end: nat, orig: seq<byte>)
    requires col <= end <= |before| == |orig| && |got| == end - col && before[..col] == orig[..col]
    requires now == before[..col] + got + before[end..]
    ensures now[..col] == orig[..col] && now[col..end] == got
  {
  }

  lemma Prefix(after: seq<byte>, now: seq<byte>, orig: seq<byte>, col: nat, end: nat)
    requires col <= end <= |now| == |orig| && now[..col] == orig[..col]
    requires after == now[..col] + orig[col..end] + now[end..]
    ensures after[..end] == orig[..end]
  {
  }

  /**
   s3c_nand_read_page_1bit of a page written by s3c_nand_write_page_1bit: with at most one flipped bit in
   each step and none in the spare area, the data comes back and no step is counted as failed.
   */
  method ReadPage1bit(s: Slc, page: seq<byte>, buf: array<byte>, oob: array<byte>, ghost orig: seq<byte>,
                      ghost oob0: seq<byte>, ghost faults: seq<Fault>)
    returns (failed: nat)
    requires GoodEngine(s) && |orig| == Times(s.steps, s.size) == buf.Length && |oob0| == s.oobSize == oob.Length
    requires buf != oob && |page| == |orig| + s.oobSize && page[|orig|..] == StoredOob(s, orig, oob0)
    requires PageFaulty(s, orig, page, faults)
    modifies buf, oob
    ensures failed == 0 && buf[..] == orig && oob[..] == page[|orig|..]
  {
    var ws := buf.Length;
    SpareRoom(s);
    SpareIsCoded(s, orig, oob0);
    ReadSpare(s, page[ws..], oob);
    AllStepsCoded(s, orig, oob0);
    failed := ReadMain(s, page, buf, oob[..], orig, faults);
  }

  lemma SpareIsCoded(s: Slc, data: seq<byte>, oob: seq<byte>)
    requires |data| == Times(s.steps, s.size) && |oob| == s.oobSize
    ensures StoredOob(s, data, oob)[SpareCode(s)..] == CodeOf(s, StoredOob(s, data, oob)[..SpareCode(s)])
  {
    RangeWithin(PosBase(s.pos), |s.pos|, s.oobSize);
    var o := Scatter(oob, s.pos, Codes(s, data, s.steps))[..SpareCode(s)];
    assert (o + CodeOf(s, o))[..SpareCode(s)] == o && (o + CodeOf(s, o))[SpareCode(s)..] == CodeOf(s, o);
  }

  /** The main area: the loop over the steps */
  method ReadMain(s: Slc, page: seq<byte>, buf: array<byte>, oob: seq<byte>, ghost orig: seq<byte>, ghost faults: seq<Fault>)
    returns (failed: nat)
    requires GoodEngine(s) && |orig| == Times(s.steps, s.size) == buf.Length && PageFaulty(s, orig, page, faults)
    requires forall k :: 0 <= k < s.steps ==> StepCoded(s, orig, oob, k)
    modifies buf
    ensures failed == 0 && buf[..] == orig
  {
    failed := 0;
    var col, k := 0, 0;
    while k < s.steps
      invariant 0 <= k <= s.steps && 0 <= col && failed == 0 && Restoring(s, orig, page, buf, k, col)
    {
      ghost var f := faults[k];
      assert StepCoded(s, orig, oob, k) && StepFaulty(s, orig, page, k, f);
      var stat;
      stat, col, k := RestoreStep(s, orig, page, buf, oob, k, col, f);
      failed := failed + if stat == -1 then 1 else 0;
    }
    WholeRead(orig, buf[..], buf[..col], col);
  }

  lemma WholeRead(orig: seq<byte>, got: seq<byte>, part: seq<byte>, col: nat)
    requires |got| == col == |orig| && part == got[..col] && part == orig[..col]
    ensures got == orig
  {
  }

  lemma SpareRoom(s: Slc)
    ensures s.oobSize > 4
  {
    StepFits(s, 0);
  }

  // ---------------------------------------------------------------- the two layouts

  /** s3c_nand_oob_16 and s3c_nand_oob_64 are such layouts, for pages of 512 bytes and of 2 KiB. */
  lemma LayoutsFit(code: seq<byte> -> seq<byte>, status: (seq<byte>, EccWord, EccWord) -> nat)
    requires forall d: seq<byte> :: |code(d)| == 4
    ensures ValidSlc(SlcParams(512, 1, 16, [1, 2, 3, 4], code, status))
    ensures ValidSlc(SlcParams(512, 4, 64, Range(40, 16), code, status))
  {
    assert Range(1, 4) == [1, 2, 3, 4] by {
      RangeAt(1, 4, 0);
      RangeAt(1, 4, 1);
      RangeAt(1, 4, 2);
      RangeAt(1, 4, 3);
    }
    RangeAt(40, 16, 0);
    assert Times(4, 4) == 16 by { TimesIsProduct(4, 4); }
    assert Times(1, 4) == 4;
  }

  /** A byte of the OOB area outside the codes is stored as it is. */
  lemma OtherBytesKept(s: Slc, data: seq<byte>, oob: seq<byte>, q: nat)
    requires |data| == Times(s.steps, s.size) && |oob| == s.oobSize
    requires q < PosBase(s.pos) || PosBase(s.pos) + |s.pos| <= q < SpareCode(s)
    ensures q < SpareCode(s) && StoredOob(s, data, oob)[q] == oob[q]
  {
    RangeWithin(PosBase(s.pos), |s.pos|, s.oobSize);
    ScatterRange(oob, PosBase(s.pos), Codes(s, data, s.steps));
  }

  /** The last four bytes are the code of the others. */
  lemma StoredOwnCode(s: Slc, data: seq<byte>, oob: seq<byte>, stored: seq<byte>)
    requires |data| == Times(s.steps, s.size) && |oob| == s.oobSize && stored == StoredOob(s, data, oob)
    ensures stored[s.oobSize - 4..] == CodeOf(s, stored[..s.oobSize - 4])
  {
    RangeWithin(PosBase(s.pos), |s.pos|, s.oobSize);
    var o := Scatter(oob, s.pos, Codes(s, data, s.steps));
    assert stored[..SpareCode(s)] == o[..SpareCode(s)];
  }

  /**
   Whatever a client puts into the last four bytes is lost: they are overwritten by the code of the OOB area.
   */
  lemma LastBytesLost(s: Slc, data: seq<byte>, oob: seq<byte>, q: nat, x: byte)
    requires |data| == Times(s.steps, s.size) && |oob| == s.oobSize && SpareCode(s) <= q < s.oobSize
    ensures StoredOob(s, data, oob[q := x]) == StoredOob(s, data, oob)
  {
    var base, codes := PosBase(s.pos), Codes(s, data, s.steps);
    RangeWithin(base, |s.pos|, s.oobSize);
    ScatterRange(oob, base, codes);
    ScatterRange(oob[q := x], base, codes);
    var l, r := Scatter(oob, s.pos, codes), Scatter(oob[q := x], s.pos, codes);
    assert l[..SpareCode(s)] == r[..SpareCode(s)];
  }

  /** oobfree of s3c_nand_oob_16 and of s3c_nand_oob_64 */
  const FREE16 := [Region(6, 10)]
  const FREE64 := [Region(2, 38)]

  lemma OneRegion(at: nat, n: nat, i: nat)
    requires i < n
    ensures |FreePositions([Region(at, n)])| == n && FreePositions([Region(at, n)])[i] == at + i
  {
    var free := [Region(at, n)];
    RangeAt(at, n, i);
    assert free[1..] == [] && FreePositions([]) == [];
    assert FreePositions(free) == Range(at, n) + FreePositions(free[1..]);
  }

  /** A client byte at position q of the OOB area reaches the flash. */
  ghost predicate Survives(s: Slc, q: nat) {
    forall data: seq<byte>, oob: seq<byte> :: |data| == Times(s.steps, s.size) && |oob| == s.oobSize && q < s.oobSize ==>
      StoredOob(s, data, oob)[q] == oob[q]
  }

  lemma SurvivesExactly(s: Slc, q: nat)
    requires q < PosBase(s.pos) || PosBase(s.pos) + |s.pos| <= q < s.oobSize
    ensures Survives(s, q) <==> q < SpareCode(s)
  {
    RangeWithin(PosBase(s.pos), |s.pos|, s.oobSize);
    if q < SpareCode(s) {
      forall data: seq<byte>, oob: seq<byte> | |data| == Times(s.steps, s.size) && |oob| == s.oobSize
        ensures StoredOob(s, data, oob)[q] == oob[q]
      {
        OtherBytesKept(s, data, oob, q);
      }
    } else {
      var data, oob := Blank(Times(s.steps, s.size)), Blank(s.oobSize);
      LastBytesLost(s, data, oob, q, 0);
      BlankAt(s.oobSize, q);
      assert oob[q := 0][q] == 0 && oob[q] == 0xFF;
    }
  }

  /** Of the ten bytes the small layout offers its clients, exactly the first six reach the flash. */
  lemma SmallLayoutExact(s: Slc, i: nat)
    requires s.oobSize == 16 && s.pos == Range(1, 4) && i < 10
    ensures |FreePositions(FREE16)| == 10
    ensures Survives(s, FreePositions(FREE16)[i]) <==> i < 6
  {
    OneRegion(6, 10, i);
    RangeAt(1, 4, 0);
    SurvivesExactly(s, 6 + i);
  }

  /** All those of the large layout do. */
  lemma LargeLayoutKeeps(s: Slc, i: nat)
    requires s.oobSize == 64 && s.pos == Range(40, 16) && i < 38
    ensures |FreePositions(FREE64)| == 38
    ensures Survives(s, FreePositions(FREE64)[i])
  {
    OneRegion(2, 38, i);
    RangeAt(40, 16, 0);
    SurvivesExactly(s, 2 + i);
  }
}
