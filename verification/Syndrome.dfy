/**
 Pages laid out for syndrome-calculating ECC controllers: each data step is followed by its pads and
 ECC bytes, and the rest of the OOB area comes last.
 */
module Syndrome {
  import opened Bytes
  import opened Geometry
  import opened Pieces
  import opened OobLayout

  datatype Shape = Shape(size: nat, prepad: nat, bytes: nat, postpad: nat, steps: nat, oobSize: nat) {
    function Chunk(): nat {
      prepad + bytes + postpad
    }
  }

  /** n steps, each followed by its share of the OOB area; what is left of the OOB area comes last. */
  function Interleave(s: Shape, data: seq<byte>, oob: seq<byte>, n: nat): (r: seq<byte>)
    requires |data| == Times(n, s.size) && Times(n, s.Chunk()) <= |oob|
    ensures |r| == |data| + |oob|
    decreases n
  {
    if n == 0 then oob
    else data[..s.size] + (oob[..s.Chunk()] + Interleave(s, data[s.size..], oob[s.Chunk()..], n - 1))
  }

  /** The data bytes of an interleaved page */
  function DataPart(s: Shape, page: seq<byte>, n: nat): (r: seq<byte>)
    requires Times(n, s.size + s.Chunk()) <= |page|
    ensures |r| == Times(n, s.size)
    decreases n
  {
    if n == 0 then [] else page[..s.size] + DataPart(s, page[s.size + s.Chunk()..], n - 1)
  }

  /** The OOB bytes of an interleaved page, in the order of the staging buffer */
  function OobPart(s: Shape, page: seq<byte>, n: nat): (r: seq<byte>)
    requires Times(n, s.size + s.Chunk()) <= |page|
    ensures |r| + Times(n, s.size) == |page|
    decreases n
  {
    if n == 0 then page else page[s.size..s.size + s.Chunk()] + OobPart(s, page[s.size + s.Chunk()..], n - 1)
  }

  /** The OOB area with every step's ECC bytes as calculated for its data. */
  function WithCodes(s: Shape, code: seq<byte> -> seq<byte>, data: seq<byte>, oob: seq<byte>, n: nat): (r: seq<byte>)
    requires |data| == Times(n, s.size) && Times(n, s.Chunk()) <= |oob| && CodeFits(s, code)
    ensures |r| == |oob|
    decreases n
  {
    if n == 0 then oob
    else oob[..s.prepad] + CodeOf(s, code, data[..s.size]) + oob[s.prepad + s.bytes..s.Chunk()]
         + WithCodes(s, code, data[s.size..], oob[s.Chunk()..], n - 1)
  }

  ghost predicate CodeFits(s: Shape, code: seq<byte> -> seq<byte>) {
    forall d: seq<byte> :: |d| == s.size ==> |code(d)| == s.bytes
  }

  function CodeOf(s: Shape, code: seq<byte> -> seq<byte>, d: seq<byte>): (r: seq<byte>)
    requires CodeFits(s, code) && |d| == s.size
    ensures |r| == s.bytes
  {
    code(d)
  }

  // ---------------------------------------------------------------- the round trip

  lemma {:induction false} ChunkAndSize(s: Shape, n: nat)
    ensures Times(n, s.size + s.Chunk()) == Times(n, s.size) + Times(n, s.Chunk())
  {
    if n > 0 {
      ChunkAndSize(s, n - 1);
    }
  }

  lemma InterleaveCons(s: Shape, data: seq<byte>, oob: seq<byte>, n: nat, d: seq<byte>, o: seq<byte>, page: seq<byte>,
                       page': seq<byte>)
    requires n > 0 && |data| == Times(n, s.size) && Times(n, s.Chunk()) <= |oob|
    requires d == data[..s.size] && o == oob[..s.Chunk()]
    requires page == Interleave(s, data, oob, n) && page' == Interleave(s, data[s.size..], oob[s.Chunk()..], n - 1)
    ensures page == d + (o + page')
    ensures page[..|d|] == d && page[|d|..|d| + |o|] == o && page[|d| + |o|..] == page'
  {
    Cut(d, o, page', page);
  }

  /** Reading an interleaved page sequentially recovers exactly the data that was stored, */
  lemma {:induction false} InterleaveData(s: Shape, data: seq<byte>, oob: seq<byte>, n: nat, page: seq<byte>)
    requires |data| == Times(n, s.size) && Times(n, s.Chunk()) <= |oob| && page == Interleave(s, data, oob, n)
    requires Times(n, s.size + s.Chunk()) <= |page|
    ensures DataPart(s, page, n) == data
    decreases n
  {
    if n > 0 {
      var d, o, data', oob' := data[..s.size], oob[..s.Chunk()], data[s.size..], oob[s.Chunk()..];
      var page' := Interleave(s, data', oob', n - 1);
      InterleaveCons(s, data, oob, n, d, o, page, page');
      InterleaveData(s, data', oob', n - 1, page');
      DataCons(s, page, n, d, page');
      SplitJoin(data, s.size);
    }
  }

  /** and exactly the OOB area. */
  lemma {:induction false} InterleaveOob(s: Shape, data: seq<byte>, oob: seq<byte>, n: nat, page: seq<byte>)
    requires |data| == Times(n, s.size) && Times(n, s.Chunk()) <= |oob| && page == Interleave(s, data, oob, n)
    requires Times(n, s.size + s.Chunk()) <= |page|
    ensures OobPart(s, page, n) == oob
    decreases n
  {
    if n > 0 {
      var d, o, data', oob' := data[..s.size], oob[..s.Chunk()], data[s.size..], oob[s.Chunk()..];
      var page' := Interleave(s, data', oob', n - 1);
      InterleaveCons(s, data, oob, n, d, o, page, page');
      InterleaveOob(s, data', oob', n - 1, page');
      OobCons(s, page, n, o, page');
      SplitJoin(oob, s.Chunk());
    }
  }

  lemma InterleaveRoundTrip(s: Shape, data: seq<byte>, oob: seq<byte>, n: nat, page: seq<byte>)
    requires |data| == Times(n, s.size) && Times(n, s.Chunk()) <= |oob| && page == Interleave(s, data, oob, n)
    ensures Times(n, s.size + s.Chunk()) <= |page|
    ensures DataPart(s, page, n) == data && OobPart(s, page, n) == oob
  {
    ChunkAndSize(s, n);
    InterleaveData(s, data, oob, n, page);
    InterleaveOob(s, data, oob, n, page);
  }

  lemma DataCons(s: Shape, page: seq<byte>, n: nat, d: seq<byte>, page': seq<byte>)
    requires n > 0 && Times(n, s.size + s.Chunk()) <= |page|
    requires d == page[..s.size] && page' == page[s.size + s.Chunk()..]
    ensures DataPart(s, page, n) == d + DataPart(s, page', n - 1)
  {
  }

  lemma OobCons(s: Shape, page: seq<byte>, n: nat, o: seq<byte>, page': seq<byte>)
    requires n > 0 && Times(n, s.size + s.Chunk()) <= |page|
    requires o == page[s.size..s.size + s.Chunk()] && page' == page[s.size + s.Chunk()..]
    ensures OobPart(s, page, n) == o + OobPart(s, page', n - 1)
  {
  }

  lemma Cut(d: seq<byte>, o: seq<byte>, rest: seq<byte>, page: seq<byte>)
    requires page == d + (o + rest)
    ensures page[..|d|] == d && page[|d|..|d| + |o|] == o && page[|d| + |o|..] == rest
  {
  }

  // ---------------------------------------------------------------- where each byte goes

  /** Step k of an interleaved page: its data, then its share of the OOB area */
  ghost predicate StepAt(s: Shape, page: seq<byte>, data: seq<byte>, oob: seq<byte>, k: nat, at: nat) {
    && at == Times(k, s.size + s.Chunk()) && at + s.size + s.Chunk() <= |page|
    && IsPiece(data, s.size, k, page[at..at + s.size])
    && IsPiece(oob, s.Chunk(), k, page[at + s.size..at + s.size + s.Chunk()])
  }

  lemma {:induction false} InterleaveAt(s: Shape, data: seq<byte>, oob: seq<byte>, n: nat, k: nat, page: seq<byte>, at: nat)
    requires |data| == Times(n, s.size) && Times(n, s.Chunk()) <= |oob| && page == Interleave(s, data, oob, n)
    requires k < n && at == Times(k, s.size + s.Chunk())
    ensures StepAt(s, page, data, oob, k, at)
    decreases n
  {
    var d, o, data', oob' := data[..s.size], oob[..s.Chunk()], data[s.size..], oob[s.Chunk()..];
    var page' := Interleave(s, data', oob', n - 1);
    InterleaveCons(s, data, oob, n, d, o, page, page');
    SplitJoin(data, s.size);
    SplitJoin(oob, s.Chunk());
    if k == 0 {
      FirstPiece(d, data', s.size);
      FirstPiece(o, oob', s.Chunk());
    } else {
      var at' := at - (s.size + s.Chunk());
      InterleaveAt(s, data', oob', n - 1, k - 1, page', at');
      LaterStep(s, data, oob, d, o, data', oob', k, page, page', at, at');
    }
  }

  lemma LaterStep(s: Shape, data: seq<byte>, oob: seq<byte>, d: seq<byte>, o: seq<byte>, data': seq<byte>, oob': seq<byte>, k: nat,
                  page: seq<byte>, page': seq<byte>, at: nat, at': nat)
    requires k > 0 && |d| == s.size && |o| == s.Chunk() && data == d + data' && oob == o + oob' && page == d + (o + page')
    requires at == at' + s.size + s.Chunk() == Times(k, s.size + s.Chunk()) && StepAt(s, page', data', oob', k - 1, at')
    ensures StepAt(s, page, data, oob, k, at)
  {
    ShiftedSlice(d + o, page', page, at', at' + s.size);
    ShiftedSlice(d + o, page', page, at' + s.size, at' + s.size + s.Chunk());
    LaterPiece(d, data', s.size, k, page'[at'..at' + s.size]);
    LaterPiece(o, oob', s.Chunk(), k, page'[at' + s.size..at' + s.size + s.Chunk()]);
  }

  lemma ShiftedSlice(front: seq<byte>, rest: seq<byte>, all: seq<byte>, i: nat, j: nat)
    requires all == front + rest && i <= j <= |rest|
    ensures all[|front| + i..|front| + j] == rest[i..j]
  {
  }

  /** The rest of the OOB area comes last. */
  lemma {:induction false} InterleaveTail(s: Shape, data: seq<byte>, oob: seq<byte>, n: nat, page: seq<byte>)
    requires |data| == Times(n, s.size) && Times(n, s.Chunk()) <= |oob| && page == Interleave(s, data, oob, n)
    ensures Times(n, s.size + s.Chunk()) <= |page|
    ensures page[Times(n, s.size + s.Chunk())..] == oob[Times(n, s.Chunk())..]
    decreases n
  {
    if n > 0 {
      var d, o, data', oob' := data[..s.size], oob[..s.Chunk()], data[s.size..], oob[s.Chunk()..];
      var page' := Interleave(s, data', oob', n - 1);
      InterleaveCons(s, data, oob, n, d, o, page, page');
      InterleaveTail(s, data', oob', n - 1, page');
      ShiftedSlice(d + o, page', page, Times(n - 1, s.size + s.Chunk()), |page'|);
      assert page == d + o + page';
    }
  }

  /** The share of step k with its code between the pads, which are as they were */
  ghost predicate CodeAt(s: Shape, code: seq<byte> -> seq<byte>, data: seq<byte>, oob: seq<byte>, oob': seq<byte>, k: nat)
    requires CodeFits(s, code)
  {
    && Times(k, s.size) + s.size <= |data| && Times(k, s.Chunk()) + s.Chunk() <= |oob|
    && IsPiece(oob', s.Chunk(), k, WithCode(s, PieceAt(oob, s.Chunk(), k), CodeOf(s, code, PieceAt(data, s.size, k))))
  }

  function WithCode(s: Shape, share: seq<byte>, ecc: seq<byte>): seq<byte>
    requires |share| == s.Chunk()
  {
    share[..s.prepad] + ecc + share[s.prepad + s.bytes..]
  }

  lemma {:induction false} WithCodesAt(s: Shape, code: seq<byte> -> seq<byte>, data: seq<byte>, oob: seq<byte>, n: nat, k: nat)
    requires CodeFits(s, code) && |data| == Times(n, s.size) && Times(n, s.Chunk()) <= |oob| && k < n
    ensures CodeAt(s, code, data, oob, WithCodes(s, code, data, oob, n), k)
    decreases n
  {
    var data', tail := data[s.size..], oob[s.Chunk()..];
    var rest := WithCodes(s, code, data', tail, n - 1);
    var first := WithCode(s, oob[..s.Chunk()], CodeOf(s, code, data[..s.size]));
    WithCodesCons(s, code, data, oob, n, first, rest);
    if k == 0 {
      FirstPiece(first, rest, s.Chunk());
    } else {
      WithCodesAt(s, code, data', tail, n - 1, k - 1);
      LaterCode(s, code, data, oob, n, k, first, rest);
    }
  }

  lemma WithCodesCons(s: Shape, code: seq<byte> -> seq<byte>, data: seq<byte>, oob: seq<byte>, n: nat, first: seq<byte>,
                      rest: seq<byte>)
    requires CodeFits(s, code) && n > 0 && |data| == Times(n, s.size) && Times(n, s.Chunk()) <= |oob|
    requires first == WithCode(s, oob[..s.Chunk()], CodeOf(s, code, data[..s.size]))
    requires rest == WithCodes(s, code, data[s.size..], oob[s.Chunk()..], n - 1)
    ensures WithCodes(s, code, data, oob, n) == first + rest && |first| == s.Chunk()
  {
  }

  lemma LaterCode(s: Shape, code: seq<byte> -> seq<byte>, data: seq<byte>, oob: seq<byte>, n: nat, k: nat, first: seq<byte>,
                  rest: seq<byte>)
    requires CodeFits(s, code) && |data| == Times(n, s.size) && Times(n, s.Chunk()) <= |oob| && 0 < k < n
    requires |first| == s.Chunk() && CodeAt(s, code, data[s.size..], oob[s.Chunk()..], rest, k - 1)
    ensures CodeAt(s, code, data, oob, first + rest, k)
  {
    PieceFits(n, s.size, k);
    PieceFits(n, s.Chunk(), k);
    PieceOfRest(data, s.size, k);
    PieceOfRest(oob, s.Chunk(), k);
    LaterPiece(first, rest, s.Chunk(), k,
               WithCode(s, PieceAt(oob, s.Chunk(), k), CodeOf(s, code, PieceAt(data, s.size, k))));
  }

  // ---------------------------------------------------------------- the write loop

  /** The state of the write loop: `left` steps of data p remain, and the OOB pointer stands at o. */
  ghost predicate Sending(s: Shape, code: seq<byte> -> seq<byte>, oob: array<byte>, p: seq<byte>, o: nat, left: nat,
                          bits: seq<byte>, allBits: seq<byte>, head: seq<byte>, allOob: seq<byte>)
    reads oob
  {
    && CodeFits(s, code) && |p| == Times(left, s.size) && o + Times(left, s.Chunk()) <= oob.Length
    && head == oob[..o]
    && var filled := WithCodes(s, code, p, oob[o..], left);
       head + filled == allOob && bits + Interleave(s, p, filled, left) == allBits
  }

  /** The codes and the bus bytes of `left` steps are those of the first, then those of the rest. */
  lemma SendUnfold(s: Shape, code: seq<byte> -> seq<byte>, p: seq<byte>, tail: seq<byte>, left: nat, ecc: seq<byte>,
                   chunk: seq<byte>, p': seq<byte>, tail': seq<byte>, filled: seq<byte>, filled': seq<byte>)
    requires CodeFits(s, code) && left > 0 && |p| == Times(left, s.size) && Times(left, s.Chunk()) <= |tail|
    requires ecc == CodeOf(s, code, p[..s.size])
    requires chunk == tail[..s.prepad] + ecc + tail[s.prepad + s.bytes..s.Chunk()]
    requires p' == p[s.size..] && tail' == tail[s.Chunk()..]
    requires filled == WithCodes(s, code, p, tail, left) && filled' == WithCodes(s, code, p', tail', left - 1)
    ensures filled == chunk + filled'
    ensures Interleave(s, p, filled, left) == p[..s.size] + (chunk + Interleave(s, p', filled', left - 1))
  {
    assert filled == chunk + filled';
    assert filled[..s.Chunk()] == chunk && filled[s.Chunk()..] == filled';
  }

  lemma SendNext(first: seq<byte>, chunk: seq<byte>, filled: seq<byte>, filled': seq<byte>, rest: seq<byte>,
                 rest': seq<byte>, bits: seq<byte>, head: seq<byte>, allBits: seq<byte>, allOob: seq<byte>)
    requires filled == chunk + filled' && rest == first + (chunk + rest')
    requires head + filled == allOob && bits + rest == allBits
    ensures head + chunk + filled' == allOob && bits + first + chunk + rest' == allBits
  {
    JoinFour(bits, first, chunk, rest');
    assert head + (chunk + filled') == head + chunk + filled';
  }

  lemma SplitJoin(a: seq<byte>, k: nat)
    requires k <= |a|
    ensures a[..k] + a[k..] == a
  {
  }

  lemma JoinThree(a: seq<byte>, b: seq<byte>, d: seq<byte>)
    ensures a + b + d == a + (b + d)
  {
  }

  lemma JoinFour(a: seq<byte>, b: seq<byte>, d: seq<byte>, z: seq<byte>)
    ensures a + (b + (d + z)) == a + b + d + z
  {
  }

  /** One step on the bus: data, pre-pad, the ECC bytes (also stored in the staging buffer), post-pad */
  method SendStep(s: Shape, code: seq<byte> -> seq<byte>, oob: array<byte>, p: seq<byte>, o: nat, left: nat,
                  bits: seq<byte>, ghost allBits: seq<byte>, ghost head: seq<byte>, ghost allOob: seq<byte>)
    returns (p': seq<byte>, o': nat, left': nat, bits': seq<byte>, ghost head': seq<byte>)
    requires Sending(s, code, oob, p, o, left, bits, allBits, head, allOob) && left > 0
    modifies oob
    ensures left' == left - 1 && Sending(s, code, oob, p', o', left', bits', allBits, head', allOob)
  {
    ghost var tail, filled := oob[o..], WithCodes(s, code, p, oob[o..], left);
    var ecc := CodeOf(s, code, p[..s.size]);
    p', o', left' := p[s.size..], o + s.Chunk(), left - 1;
    var chunk := SendChunk(oob, o, s.prepad, ecc, s.Chunk());
    ghost var filled' := WithCodes(s, code, p', oob[o'..], left');
    SendUnfold(s, code, p, tail, left, ecc, chunk, p', oob[o'..], filled, filled');
    SendNext(p[..s.size], chunk, filled, filled', Interleave(s, p, filled, left), Interleave(s, p', filled', left'),
             bits, head, allBits, allOob);
    bits', head' := bits + p[..s.size] + chunk, head + chunk;
  }

  /** Pre-pad, code and post-pad go out; ecc.calculate leaves the code in the staging buffer. */
  method SendChunk(oob: array<byte>, o: nat, prepad: nat, ecc: seq<byte>, size: nat) returns (chunk: seq<byte>)
    requires prepad + |ecc| <= size && o + size <= oob.Length
    modifies oob
    ensures chunk == old(oob[o..])[..prepad] + ecc + old(oob[o..])[prepad + |ecc|..size]
    ensures oob[..o + size] == old(oob[..o]) + chunk && oob[o + size..] == old(oob[o..])[size..]
  {
    ghost var before := oob[..];
    chunk := oob[o..o + prepad];
    CopyInto(oob, o + prepad, ecc);
    chunk := chunk + ecc;
    chunk := chunk + oob[o + prepad + |ecc|..o + size];
    ghost var after := oob[..];
    Patch(before, after, o, prepad, ecc, size);
    assert oob[o + prepad + |ecc|..o + size] == after[o + prepad + |ecc|..o + size];
    assert oob[..o + size] == after[..o + size];
    assert oob[o + size..] == after[o + size..];
    assert old(oob[o..]) == before[o..] && old(oob[..o]) == before[..o];
  }

  lemma Patch(before: seq<byte>, after: seq<byte>, o: nat, prepad: nat, ecc: seq<byte>, size: nat)
    requires prepad + |ecc| <= size && o + size <= |before|
    requires after == before[..o + prepad] + ecc + before[o + prepad + |ecc|..]
    ensures after[o + prepad + |ecc|..o + size] == before[o..][prepad + |ecc|..size]
    ensures before[o..o + prepad] == before[o..][..prepad]
    ensures after[..o + size] == before[..o] + (before[o..][..prepad] + ecc + before[o..][prepad + |ecc|..size])
    ensures after[o + size..] == before[o..][size..]
  {
    var rest := before[o..];
    var chunk := rest[..prepad] + ecc + rest[prepad + |ecc|..size];
    var want := before[..o] + chunk;
    forall i | 0 <= i < o + size ensures after[i] == want[i] {
      if i >= o {
        assert want[i] == chunk[i - o];
      }
    }
    assert after[..o + size] == want;
  }

  lemma Finish(oob: seq<byte>, o: nat, head: seq<byte>, bits: seq<byte>, allBits: seq<byte>, allOob: seq<byte>)
    requires o <= |oob| && head == oob[..o] && head + oob[o..] == allOob && bits + oob[o..] == allBits
    ensures oob == allOob
  {
  }

  /** nand_write_page_syndrome: the bytes sent to the device, with the codes stored in the staging buffer on the way */
  method WritePageSyndrome(s: Shape, code: seq<byte> -> seq<byte>, buf: seq<byte>, oob: array<byte>)
    returns (bits: seq<byte>)
    requires CodeFits(s, code) && |buf| == Times(s.steps, s.size)
    requires oob.Length == s.oobSize && Times(s.steps, s.Chunk()) <= s.oobSize
    modifies oob
    ensures oob[..] == WithCodes(s, code, buf, old(oob[..]), s.steps)
    ensures bits == Interleave(s, buf, oob[..], s.steps)
  {
    bits := [];
    ghost var head: seq<byte> := [];
    ghost var allOob := WithCodes(s, code, buf, oob[..], s.steps);
    ghost var allBits := Interleave(s, buf, allOob, s.steps);
    var p, o, left := buf, 0, s.steps;
    assert oob[0..] == oob[..];
    while left != 0
      invariant 0 <= left && 0 <= o && Sending(s, code, oob, p, o, left, bits, allBits, head, allOob)
      decreases left
    {
      p, o, left, bits, head := SendStep(s, code, oob, p, o, left, bits, allBits, head, allOob);
    }
    Finish(oob[..], o, head, bits, allBits, allOob);
    bits := bits + oob[o..];
  }

  // ---------------------------------------------------------------- the read loops

  /** nand_read_page_raw_syndrome: steps read in bus order into the data and the staging buffer */
  method ReadPageRawSyndrome(s: Shape, page: seq<byte>) returns (buf: seq<byte>, oob: seq<byte>)
    requires Times(s.steps, s.size + s.Chunk()) <= |page| && |page| == Times(s.steps, s.size) + s.oobSize
    ensures buf == DataPart(s, page, s.steps) && oob == OobPart(s, page, s.steps)
  {
    buf, oob := [], [];
    var bus, left := page, s.steps;
    while left != 0
      invariant 0 <= left && Times(left, s.size + s.Chunk()) <= |bus|
      invariant buf + DataPart(s, bus, left) == DataPart(s, page, s.steps)
      invariant oob + OobPart(s, bus, left) == OobPart(s, page, s.steps)
    {
      var d, o;
      d, o, bus := ReadStep(s, bus, left);
      left := left - 1;
      JoinThree(buf, d, DataPart(s, bus, left));
      JoinThree(oob, o, OobPart(s, bus, left));
      buf, oob := buf + d, oob + o;
    }
    oob := oob + bus;
  }

  /** One step off the bus: data, pre-pad, ECC bytes, post-pad */
  method ReadStep(s: Shape, bus: seq<byte>, ghost left: nat) returns (d: seq<byte>, o: seq<byte>, bus': seq<byte>)
    requires left > 0 && Times(left, s.size + s.Chunk()) <= |bus|
    ensures Times(left - 1, s.size + s.Chunk()) <= |bus'|
    ensures DataPart(s, bus, left) == d + DataPart(s, bus', left - 1)
    ensures OobPart(s, bus, left) == o + OobPart(s, bus', left - 1)
  {
    d := bus[..s.size];
    o := bus[s.size..s.size + s.prepad];
    o := o + bus[s.size + s.prepad..s.size + s.prepad + s.bytes];
    o := o + bus[s.size + s.prepad + s.bytes..s.size + s.Chunk()];
    bus' := bus[s.size + s.Chunk()..];
    assert o == bus[s.size..s.size + s.Chunk()];
    DataCons(s, bus, left, d, bus');
    OobCons(s, bus, left, o, bus');
  }

  /** The state of the seek loop: `rest` is the page from step i on, and its OOB bytes are still to be collected. */
  ghost predicate Seeking(s: Shape, page: seq<byte>, i: nat, left: nat, length: nat, rest: seq<byte>, oob: seq<byte>,
                          all: seq<byte>)
  {
    && i + left == s.steps && Times(left, s.size + s.Chunk()) <= |rest|
    && length == s.oobSize - Times(i, s.Chunk()) && length + Times(left, s.size) == |rest|
    && Times(i, s.size + s.Chunk()) + |rest| == |page| && rest == page[Times(i, s.size + s.Chunk())..]
    && oob + OobPart(s, rest, left) == all
  }

  /** One seek and one read */
  method SeekStep(s: Shape, page: seq<byte>, i: nat, ghost left: nat, length: nat, oob: seq<byte>, ghost rest: seq<byte>,
                  ghost all: seq<byte>)
    returns (oob': seq<byte>, length': nat, i': nat, ghost left': nat, ghost rest': seq<byte>)
    requires left > 0 && Times(s.steps, s.Chunk()) <= s.oobSize && Seeking(s, page, i, left, length, rest, oob, all)
    ensures i' == i + 1 && Seeking(s, page, i', left', length', rest', oob', all)
  {
    SeekRoom(s, i, length);
    var w := s.size + s.Chunk();
    var pos := s.size + Times(i, w);
    var toread := Min(length, s.Chunk());
    var got := page[pos..pos + toread];
    length', i', left', rest' := length - toread, i + 1, left - 1, rest[w..];
    SeekSizes(s, i, left, w, |rest|);
    SeekUnfold(page, Times(i, w), s.size, w, rest);
    assert got == rest[s.size..w];
    OobCons(s, rest, left, got, rest');
    SeekJoin(s, oob, got, rest, left, rest', left', all);
    oob' := oob + got;
  }

  lemma SeekSizes(s: Shape, i: nat, left: nat, w: nat, size: nat)
    requires left > 0 && w == s.size + s.Chunk() && Times(left, w) <= size
    ensures Times(i + 1, w) == Times(i, w) + w && Times(i + 1, s.Chunk()) == Times(i, s.Chunk()) + s.Chunk()
    ensures w <= size && Times(left - 1, w) <= size - w && Times(left, s.size) == Times(left - 1, s.size) + s.size
  {
    TimesAdd(i, 1, w);
    TimesAdd(i, 1, s.Chunk());
  }

  lemma SeekJoin(s: Shape, oob: seq<byte>, got: seq<byte>, rest: seq<byte>, left: nat, rest': seq<byte>, left': nat,
                 all: seq<byte>)
    requires Times(left, s.size + s.Chunk()) <= |rest| && Times(left', s.size + s.Chunk()) <= |rest'|
    requires OobPart(s, rest, left) == got + OobPart(s, rest', left') && oob + OobPart(s, rest, left) == all
    ensures oob + got + OobPart(s, rest', left') == all
  {
    JoinThree(oob, got, OobPart(s, rest', left'));
  }

  lemma SeekUnfold(page: seq<byte>, at: nat, size: nat, w: nat, rest: seq<byte>)
    requires at <= |page| && rest == page[at..] && size <= w <= |rest|
    ensures page[size + at..at + w] == rest[size..w] && rest[w..] == page[at + w..]
  {
  }

  /** nand_read_oob_syndrome: the column seeks collect the same OOB bytes as the sequential read. */
  method ReadOobSyndrome(s: Shape, page: seq<byte>) returns (oob: seq<byte>)
    requires s.steps > 0 && |page| == Times(s.steps, s.size) + s.oobSize && Times(s.steps, s.Chunk()) <= s.oobSize
    ensures Times(s.steps, s.size + s.Chunk()) <= |page|
    ensures oob == OobPart(s, page, s.steps)
  {
    ChunkAndSize(s, s.steps);
    oob := [];
    var i, length := 0, s.oobSize;
    ghost var left, rest, all := s.steps, page, OobPart(s, page, s.steps);
    while i < s.steps
      invariant 0 <= i && 0 <= left && 0 <= length && Seeking(s, page, i, left, length, rest, oob, all)
    {
      oob, length, i, left, rest := SeekStep(s, page, i, left, length, oob, rest, all);
    }
    var at := Times(s.steps, s.size + s.Chunk());
    if length > 0 {
      oob := oob + page[at..at + length];
    }
  }

  /** There is a whole chunk left to read before each step. */
  lemma SeekRoom(s: Shape, i: nat, length: nat)
    requires i < s.steps && Times(s.steps, s.Chunk()) <= s.oobSize && length == s.oobSize - Times(i, s.Chunk())
    ensures s.Chunk() <= length
  {
    TimesAdd(i, s.steps - i, s.Chunk());
  }

  // ---------------------------------------------------------------- the raw write

  /** The bytes nand_write_page_raw_syndrome sends: the ECC bytes are missing from every step. */
  function RawStream(s: Shape, data: seq<byte>, oob: seq<byte>, n: nat): (r: seq<byte>)
    requires |data| == Times(n, s.size) && Times(n, s.Chunk()) <= |oob|
    ensures |r| + Times(n, s.bytes) == |data| + |oob|
    decreases n
  {
    if n == 0 then oob
    else data[..s.size] + oob[..s.prepad] + oob[s.prepad + s.bytes..s.Chunk()]
         + RawStream(s, data[s.size..], oob[s.Chunk()..], n - 1)
  }

  lemma RawCons(s: Shape, data: seq<byte>, oob: seq<byte>, n: nat, sent: seq<byte>, data': seq<byte>, oob': seq<byte>)
    requires n > 0 && |data| == Times(n, s.size) && Times(n, s.Chunk()) <= |oob|
    requires sent == data[..s.size] + oob[..s.prepad] + oob[s.prepad + s.bytes..s.Chunk()]
    requires data' == data[s.size..] && oob' == oob[s.Chunk()..]
    ensures RawStream(s, data, oob, n) == sent + RawStream(s, data', oob', n - 1)
  {
  }

  /** The staging buffer afterwards: what was read from the device stands where every step's ECC bytes were. */
  function WithRead(s: Shape, oob: seq<byte>, read: seq<seq<byte>>): (r: seq<byte>)
    requires Times(|read|, s.Chunk()) <= |oob| && forall i :: 0 <= i < |read| ==> |read[i]| == s.bytes
    ensures |r| == |oob|
    decreases |read|
  {
    if read == [] then oob
    else oob[..s.prepad] + read[0] + oob[s.prepad + s.bytes..s.Chunk()] + WithRead(s, oob[s.Chunk()..], read[1..])
  }

  lemma ReadCons(s: Shape, oob: seq<byte>, read: seq<seq<byte>>, staged: seq<byte>, oob': seq<byte>, read': seq<seq<byte>>)
    requires read != [] && Times(|read|, s.Chunk()) <= |oob| && forall i :: 0 <= i < |read| ==> |read[i]| == s.bytes
    requires staged == oob[..s.prepad] + read[0] + oob[s.prepad + s.bytes..s.Chunk()]
    requires oob' == oob[s.Chunk()..] && read' == read[1..]
    ensures WithRead(s, oob, read) == staged + WithRead(s, oob', read')
  {
  }

  /** nand_write_page_raw_syndrome: `read` is what read_buf put into the staging buffer for each step's ECC bytes. */
  method WritePageRawSyndrome(s: Shape, buf: seq<byte>, oob: seq<byte>, read: seq<seq<byte>>)
    returns (bits: seq<byte>, oob': seq<byte>)
    requires |buf| == Times(s.steps, s.size) && |oob| == s.oobSize && Times(s.steps, s.Chunk()) <= s.oobSize
    requires |read| == s.steps && forall i :: 0 <= i < s.steps ==> |read[i]| == s.bytes
    ensures bits == RawStream(s, buf, oob, s.steps)
    ensures oob' == WithRead(s, oob, read)
  {
    bits, oob' := [], [];
    var p, o, left, next := buf, oob, s.steps, read;
    ghost var allBits, allOob := RawStream(s, buf, oob, s.steps), WithRead(s, oob, read);
    while left != 0
      invariant 0 <= left && RawSending(s, p, o, left, next, bits, oob', allBits, allOob)
      decreases left
    {
      p, o, left, next, bits, oob' := RawStep(s, p, o, left, next, bits, oob', allBits, allOob);
    }
    bits, oob' := bits + o, oob' + o;
  }

  /** The state of the raw write loop: `left` steps remain. */
  ghost predicate RawSending(s: Shape, p: seq<byte>, o: seq<byte>, left: nat, next: seq<seq<byte>>, bits: seq<byte>,
                             oob: seq<byte>, allBits: seq<byte>, allOob: seq<byte>)
  {
    && |p| == Times(left, s.size) && Times(left, s.Chunk()) <= |o|
    && |next| == left && (forall i :: 0 <= i < left ==> |next[i]| == s.bytes)
    && bits + RawStream(s, p, o, left) == allBits && oob + WithRead(s, o, next) == allOob
  }

  /** One step of it: data and padding are sent, and the ECC bytes read */
  method RawStep(s: Shape, p: seq<byte>, o: seq<byte>, left: nat, next: seq<seq<byte>>, bits: seq<byte>, oob: seq<byte>,
                 ghost allBits: seq<byte>, ghost allOob: seq<byte>)
    returns (p': seq<byte>, o': seq<byte>, left': nat, next': seq<seq<byte>>, bits': seq<byte>, oob': seq<byte>)
    requires left > 0 && RawSending(s, p, o, left, next, bits, oob, allBits, allOob)
    ensures left' == left - 1 && RawSending(s, p', o', left', next', bits', oob', allBits, allOob)
  {
    p', o', left', next' := p[s.size..], o[s.Chunk()..], left - 1, next[1..];
    var sent := p[..s.size] + o[..s.prepad] + o[s.prepad + s.bytes..s.Chunk()];
    var staged := o[..s.prepad] + next[0] + o[s.prepad + s.bytes..s.Chunk()];
    RawCons(s, p, o, left, sent, p', o');
    JoinThree(bits, sent, RawStream(s, p', o', left'));
    ReadCons(s, o, next, staged, o', next');
    JoinThree(oob, staged, WithRead(s, o', next'));
    bits', oob' := bits + sent, oob + staged;
  }

  lemma {:induction false} NoBytesNoLoss(s: Shape, data: seq<byte>, oob: seq<byte>, n: nat)
    requires |data| == Times(n, s.size) && Times(n, s.Chunk()) <= |oob| && s.bytes == 0
    ensures RawStream(s, data, oob, n) == Interleave(s, data, oob, n)
    decreases n
  {
    if n > 0 {
      var d, data', oob' := data[..s.size], data[s.size..], oob[s.Chunk()..];
      NoBytesNoLoss(s, data', oob', n - 1);
      var rest := Interleave(s, data', oob', n - 1);
      InterleaveIs(s, data, oob, n, d, oob[..s.Chunk()], rest);
      RawCons(s, data, oob, n, d + oob[..s.prepad] + oob[s.prepad + s.bytes..s.Chunk()], data', oob');
      SplitChunk(d, oob, s.prepad, s.Chunk(), rest);
    }
  }

  lemma InterleaveIs(s: Shape, data: seq<byte>, oob: seq<byte>, n: nat, d: seq<byte>, o: seq<byte>, rest: seq<byte>)
    requires n > 0 && |data| == Times(n, s.size) && Times(n, s.Chunk()) <= |oob|
    requires d == data[..s.size] && o == oob[..s.Chunk()]
    requires rest == Interleave(s, data[s.size..], oob[s.Chunk()..], n - 1)
    ensures Interleave(s, data, oob, n) == d + (o + rest)
  {
  }

  lemma SplitChunk(d: seq<byte>, oob: seq<byte>, m: nat, n: nat, rest: seq<byte>)
    requires m <= n <= |oob|
    ensures d + oob[..m] + oob[m..n] + rest == d + (oob[..n] + rest)
  {
    assert oob[..m] + oob[m..n] == oob[..n];
    JoinFour(d, oob[..m], oob[m..n], rest);
    assert oob[..m] + (oob[m..n] + rest) == oob[..n] + rest;
  }

  lemma {:induction false} SomeBytes(n: nat, k: nat)
    requires n > 0
    ensures Times(n, k) == 0 <==> k == 0
  {
    if n > 1 {
      SomeBytes(n - 1, k);
    }
  }

  /** The raw write sends the whole interleaved page exactly when there are no ECC bytes. */
  lemma RawWriteExact(s: Shape, data: seq<byte>, oob: seq<byte>, n: nat)
    requires n > 0 && |data| == Times(n, s.size) && Times(n, s.Chunk()) <= |oob|
    ensures RawStream(s, data, oob, n) == Interleave(s, data, oob, n) <==> s.bytes == 0
  {
    SomeBytes(n, s.bytes);
    if s.bytes == 0 {
      NoBytesNoLoss(s, data, oob, n);
    }
  }
}
