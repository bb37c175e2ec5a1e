/**
 The out-of-band area as a client sees it: `nand_fill_oob` and `nand_transfer_oob`
 copy client bytes to and from the OOB staging buffer.
 */
module OobLayout {
  import opened Bytes

  datatype Mode = Place | Auto | Raw

  datatype Region = Region(offset: nat, length: nat)

  /** n consecutive positions from off */
  function Range(off: nat, n: nat): (r: seq<nat>)
    ensures |r| == n
    decreases n
  {
    if n == 0 then [] else [off] + Range(off + 1, n - 1)
  }

  /** The positions of the free bytes, region after region. */
  function FreePositions(free: seq<Region>): seq<nat> {
    if free == [] then [] else Range(free[0].offset, free[0].length) + FreePositions(free[1..])
  }

  /** The table of free regions as the loops see it: it ends at the first zero length. */
  ghost predicate ValidRegions(free: seq<Region>, size: nat) {
    forall i :: 0 <= i < |free| ==> free[i].length > 0 && free[i].offset + free[i].length <= size
  }

  ghost predicate DisjointRegions(free: seq<Region>) {
    forall i, j :: 0 <= i < j < |free| ==>
      free[i].offset + free[i].length <= free[j].offset || free[j].offset + free[j].length <= free[i].offset
  }

  /** Where the k-th client byte of a mode lives in the OOB area. */
  function Slots(free: seq<Region>, size: nat, mode: Mode): seq<nat> {
    if mode.Auto? then FreePositions(free) else Range(0, size)
  }

  ghost predicate Within(pos: seq<nat>, size: nat) {
    forall i :: 0 <= i < |pos| ==> pos[i] < size
  }

  ghost predicate Distinct(pos: seq<nat>) {
    forall i, j :: 0 <= i < j < |pos| ==> pos[i] != pos[j]
  }

  function Gather(oob: seq<byte>, pos: seq<nat>): (r: seq<byte>)
    requires Within(pos, |oob|)
    ensures |r| == |pos|
  {
    if pos == [] then [] else [oob[pos[0]]] + Gather(oob, pos[1..])
  }

  function Scatter(oob: seq<byte>, pos: seq<nat>, data: seq<byte>): (r: seq<byte>)
    requires Within(pos, |oob|) && |data| == |pos|
    ensures |r| == |oob|
    decreases |pos|
  {
    if pos == [] then oob else Scatter(oob[pos[0] := data[0]], pos[1..], data[1..])
  }

  lemma {:induction false} RangeAt(off: nat, n: nat, i: nat)
    requires i < n
    ensures Range(off, n)[i] == off + i
    decreases n
  {
    if i > 0 {
      RangeAt(off + 1, n - 1, i - 1);
    }
  }

  lemma {:induction false} GatherAt(oob: seq<byte>, pos: seq<nat>, i: nat)
    requires Within(pos, |oob|) && i < |pos|
    ensures Gather(oob, pos)[i] == oob[pos[i]]
  {
    if i > 0 {
      GatherAt(oob, pos[1..], i - 1);
    }
  }

  lemma {:induction false} RangeWithin(off: nat, n: nat, size: nat)
    requires off + n <= size
    ensures Within(Range(off, n), size)
  {
    forall i | 0 <= i < n ensures Range(off, n)[i] < size {
      RangeAt(off, n, i);
    }
  }

  lemma RangeSlice(size: nat, off: nat, n: nat)
    requires off + n <= size
    ensures Range(0, size)[off..off + n] == Range(off, n)
  {
    RangeTail(0, size, off, n);
  }

  lemma RangeTail(off: nat, n: nat, from: nat, len: nat)
    requires from + len <= n
    ensures Range(off, n)[from..from + len] == Range(off + from, len)
  {
    var part := Range(off, n)[from..from + len];
    forall i | 0 <= i < len ensures part[i] == Range(off + from, len)[i] {
      RangeAt(off, n, from + i);
      RangeAt(off + from, len, i);
    }
  }

  // ---------------------------------------------------------------- the position list

  lemma {:induction false} FreeWithin(free: seq<Region>, size: nat)
    requires ValidRegions(free, size)
    ensures Within(FreePositions(free), size)
  {
    if free != [] {
      FreeWithin(free[1..], size);
      RangeWithin(free[0].offset, free[0].length, size);
    }
  }

  lemma SlotsWithin(free: seq<Region>, size: nat, mode: Mode)
    requires ValidRegions(free, size)
    ensures Within(Slots(free, size, mode), size)
  {
    FreeWithin(free, size);
    RangeWithin(0, size, size);
  }

  /** A free position lies in one of the regions. */
  lemma {:induction false} FreeInSome(free: seq<Region>, i: nat) returns (k: nat)
    requires i < |FreePositions(free)|
    ensures k < |free| && free[k].offset <= FreePositions(free)[i] < free[k].offset + free[k].length
  {
    if i < free[0].length {
      RangeAt(free[0].offset, free[0].length, i);
      k := 0;
    } else {
      k := FreeInSome(free[1..], i - free[0].length);
      k := k + 1;
    }
  }

  lemma {:induction false} FreeDistinct(free: seq<Region>)
    requires DisjointRegions(free)
    ensures Distinct(FreePositions(free))
  {
    if free != [] {
      FreeDistinct(free[1..]);
      var n, rest := free[0].length, FreePositions(free[1..]);
      forall i, j | 0 <= i < j < n + |rest| ensures FreePositions(free)[i] != FreePositions(free)[j] {
        if j < n {
          RangeAt(free[0].offset, n, i);
          RangeAt(free[0].offset, n, j);
        } else if i < n {
          RangeAt(free[0].offset, n, i);
          var k := FreeInSome(free[1..], j - n);
          assert free[1..][k] == free[k + 1];
        }
      }
    }
  }

  lemma SlotsDistinct(free: seq<Region>, size: nat, mode: Mode)
    requires DisjointRegions(free)
    ensures Distinct(Slots(free, size, mode))
  {
    FreeDistinct(free);
    forall i, j | 0 <= i < j < size ensures Range(0, size)[i] != Range(0, size)[j] {
      RangeAt(0, size, i);
      RangeAt(0, size, j);
    }
  }

  // ---------------------------------------------------------------- scatter and gather

  lemma {:induction false} ScatterOther(oob: seq<byte>, pos: seq<nat>, data: seq<byte>, q: nat)
    requires Within(pos, |oob|) && |data| == |pos| && q < |oob| && q !in pos
    ensures Scatter(oob, pos, data)[q] == oob[q]
    decreases |pos|
  {
    if pos != [] {
      ScatterOther(oob[pos[0] := data[0]], pos[1..], data[1..], q);
    }
  }

  lemma {:induction false} ScatterAt(oob: seq<byte>, pos: seq<nat>, data: seq<byte>, i: nat)
    requires Within(pos, |oob|) && |data| == |pos| && Distinct(pos) && i < |pos|
    ensures Scatter(oob, pos, data)[pos[i]] == data[i]
    decreases |pos|
  {
    if i == 0 {
      ScatterOther(oob[pos[0] := data[0]], pos[1..], data[1..], pos[0]);
    } else {
      ScatterAt(oob[pos[0] := data[0]], pos[1..], data[1..], i - 1);
    }
  }

  /** Scattering to a range is a copy. */
  lemma {:induction false} ScatterRange(oob: seq<byte>, off: nat, data: seq<byte>)
    requires off + |data| <= |oob|
    ensures Within(Range(off, |data|), |oob|)
    ensures Scatter(oob, Range(off, |data|), data) == oob[..off] + data + oob[off + |data|..]
    decreases |data|
  {
    RangeWithin(off, |data|, |oob|);
    if data != [] {
      var oob' := oob[off := data[0]];
      assert Range(off, |data|)[1..] == Range(off + 1, |data| - 1);
      ScatterRange(oob', off + 1, data[1..]);
      assert oob'[..off + 1] == oob[..off] + [data[0]];
    }
  }

  /** Scattering to a range, then to more, is a copy, then the rest. */
  lemma {:induction false} ScatterCopy(oob: seq<byte>, at: nat, q: seq<nat>, data: seq<byte>, b: nat)
    requires at + b <= |oob| && Within(q, |oob|) && |data| == b + |q|
    ensures Within(Range(at, b) + q, |oob|)
    ensures Scatter(oob, Range(at, b) + q, data) ==
            Scatter(oob[..at] + data[..b] + oob[at + b..], q, data[b..])
    decreases b
  {
    RangeWithin(at, b, |oob|);
    if b == 0 {
      assert Range(at, b) + q == q && oob[..at] + data[..b] + oob[at + b..] == oob;
    } else {
      var oob' := oob[at := data[0]];
      ScatterCopy(oob', at + 1, q, data[1..], b - 1);
      assert (Range(at, b) + q)[1..] == Range(at + 1, b - 1) + q && (Range(at, b) + q)[0] == at;
      assert oob'[..at + 1] + data[1..][..b - 1] + oob'[at + b..] == oob[..at] + data[..b] + oob[at + b..];
    }
  }

  /** The positions still to visit when the loops stand at the first of the given regions. */
  function Stretch(free: seq<Region>, offs: nat, n: nat): (r: seq<nat>)
    requires offs + n <= |FreePositions(free)|
    ensures |r| == n
  {
    FreePositions(free)[offs..offs + n]
  }

  lemma StretchWithin(free: seq<Region>, offs: nat, n: nat, size: nat)
    requires ValidRegions(free, size) && offs + n <= |FreePositions(free)|
    ensures Within(Stretch(free, offs, n), size)
  {
    FreeWithin(free, size);
  }

  /** A stretch across two joined lists is its share of the first, then its share of the second. */
  lemma SliceOfConcat(r: seq<nat>, q: seq<nat>, from: nat, n: nat, b: nat)
    requires from < |r| && from + n <= |r| + |q| && b == Min(n, |r| - from)
    ensures (r + q)[from..from + n] == r[from..from + b] + q[0..n - b]
  {
  }

  /** A stretch is the first region's share followed by a stretch of the remaining regions. */
  lemma StretchSplit(free: seq<Region>, offs: nat, n: nat, b: nat)
    requires free != [] && offs < free[0].length && offs + n <= |FreePositions(free)|
    requires b == Min(n, free[0].length - offs)
    ensures n - b <= |FreePositions(free[1..])|
    ensures Stretch(free, offs, n) == Range(free[0].offset + offs, b) + Stretch(free[1..], 0, n - b)
  {
    RangeTail(free[0].offset, free[0].length, offs, b);
    SliceOfConcat(Range(free[0].offset, free[0].length), FreePositions(free[1..]), offs, n, b);
  }

  lemma StretchSkip(free: seq<Region>, offs: nat, n: nat)
    requires free != [] && free[0].length <= offs && offs + n <= |FreePositions(free)|
    ensures offs - free[0].length + n <= |FreePositions(free[1..])|
    ensures Stretch(free, offs, n) == Stretch(free[1..], offs - free[0].length, n)
  {
  }

  /** Gathering a range, then more, is a copied chunk, then the rest. */
  lemma {:induction false} GatherConcat(src: seq<byte>, at: nat, b: nat, q: seq<nat>)
    requires at + b <= |src| && Within(q, |src|)
    ensures Within(Range(at, b) + q, |src|)
    ensures Gather(src, Range(at, b) + q) == src[at..at + b] + Gather(src, q)
    decreases b
  {
    RangeWithin(at, b, |src|);
    var whole := Range(at, b) + q;
    if b == 0 {
      assert whole == q;
    } else {
      GatherConcat(src, at + 1, b - 1, q);
      GatherMore(src, at, b, q, whole, Range(at + 1, b - 1) + q, Gather(src, q));
    }
  }

  lemma GatherMore(src: seq<byte>, at: nat, b: nat, q: seq<nat>, whole: seq<nat>, rest: seq<nat>, more: seq<byte>)
    requires b > 0 && at + b <= |src| && Within(whole, |src|) && Within(rest, |src|)
    requires whole == Range(at, b) + q && rest == Range(at + 1, b - 1) + q
    requires Gather(src, rest) == src[at + 1..at + b] + more
    ensures Gather(src, whole) == src[at..at + b] + more
  {
    RangeJoin(at, b, q, whole, rest);
    GatherCons(src, whole, rest);
    ChunkCons(src, at, at + b, more);
  }

  lemma RangeJoin(at: nat, b: nat, q: seq<nat>, whole: seq<nat>, rest: seq<nat>)
    requires b > 0 && whole == Range(at, b) + q && rest == Range(at + 1, b - 1) + q
    ensures whole[0] == at && whole[1..] == rest
  {
    var r := Range(at, b);
    assert r == [at] + Range(at + 1, b - 1);
    assert whole == [at] + rest;
  }

  lemma GatherCons(src: seq<byte>, pos: seq<nat>, rest: seq<nat>)
    requires pos != [] && Within(pos, |src|) && Within(rest, |src|) && pos[1..] == rest
    ensures Gather(src, pos) == [src[pos[0]]] + Gather(src, rest)
  {
  }

  lemma ChunkCons(src: seq<byte>, at: nat, end: nat, more: seq<byte>)
    requires at < end <= |src|
    ensures [src[at]] + (src[at + 1..end] + more) == src[at..end] + more
  {
    assert src[at..end] == [src[at]] + src[at + 1..end];
  }

  lemma JoinBytes(a: seq<byte>, b: seq<byte>, d: seq<byte>)
    ensures a + (b + d) == a + b + d
  {
  }

  // ---------------------------------------------------------------- the two loops

  /** free->length at the head of the remaining table, with the zero entry that ends it. */
  function HeadLength(p: seq<Region>): nat {
    if p == [] then 0 else p[0].length
  }

  /** The client bytes of a stretch of the free bytes */
  ghost function Collect(src: seq<byte>, free: seq<Region>, offs: nat, n: nat): seq<byte>
    requires ValidRegions(free, |src|) && offs + n <= |FreePositions(free)|
  {
    StretchWithin(free, offs, n, |src|);
    Gather(src, Stretch(free, offs, n))
  }

  lemma CollectSplit(src: seq<byte>, free: seq<Region>, offs: nat, n: nat, at: nat, b: nat)
    requires ValidRegions(free, |src|) && offs + n <= |FreePositions(free)|
    requires free != [] && offs < free[0].length && b == Min(n, free[0].length - offs)
    requires at == free[0].offset + offs
    ensures n - b <= |FreePositions(free[1..])| && at + b <= |src|
    ensures Collect(src, free, offs, n) == src[at..at + b] + Collect(src, free[1..], 0, n - b)
  {
    var whole, q := SplitParts(src, free, offs, n, at, b);
    GatherJoin(src, at, b, q, whole);
  }

  lemma SplitParts(src: seq<byte>, free: seq<Region>, offs: nat, n: nat, at: nat, b: nat)
    returns (whole: seq<nat>, q: seq<nat>)
    requires ValidRegions(free, |src|) && offs + n <= |FreePositions(free)|
    requires free != [] && offs < free[0].length && b == Min(n, free[0].length - offs)
    requires at == free[0].offset + offs
    ensures n - b <= |FreePositions(free[1..])| && at + b <= |src| && whole == Range(at, b) + q
    ensures Within(whole, |src|) && Collect(src, free, offs, n) == Gather(src, whole)
    ensures Within(q, |src|) && Collect(src, free[1..], 0, n - b) == Gather(src, q)
  {
    StretchSplit(free, offs, n, b);
    FirstInside(free, |src|, offs, b, at);
    whole, q := Stretch(free, offs, n), Stretch(free[1..], 0, n - b);
    CollectIs(src, free, offs, n, whole);
    CollectIs(src, free[1..], 0, n - b, q);
  }

  lemma CollectIs(src: seq<byte>, free: seq<Region>, offs: nat, n: nat, pos: seq<nat>)
    requires ValidRegions(free, |src|) && offs + n <= |FreePositions(free)| && pos == Stretch(free, offs, n)
    ensures Within(pos, |src|) && Collect(src, free, offs, n) == Gather(src, pos)
  {
    StretchWithin(free, offs, n, |src|);
  }

  lemma FirstInside(free: seq<Region>, size: nat, offs: nat, b: nat, at: nat)
    requires ValidRegions(free, size) && free != [] && offs + b <= free[0].length && at == free[0].offset + offs
    ensures at + b <= size && ValidRegions(free[1..], size)
  {
  }

  lemma GatherJoin(src: seq<byte>, at: nat, b: nat, q: seq<nat>, whole: seq<nat>)
    requires at + b <= |src| && Within(q, |src|) && Within(whole, |src|) && whole == Range(at, b) + q
    ensures Gather(src, whole) == src[at..at + b] + Gather(src, q)
  {
    GatherConcat(src, at, b, q);
  }

  /** What the AUTO walk reaches of a request: it is cut short at the end of the last region. */
  ghost function Reach(src: seq<byte>, free: seq<Region>, offs: nat, n: nat): seq<byte>
    requires ValidRegions(free, |src|)
  {
    var total := |FreePositions(free)|;
    if offs >= total then [] else Collect(src, free, offs, Min(n, total - offs))
  }

  lemma ReachSkip(src: seq<byte>, free: seq<Region>, offs: nat, n: nat)
    requires ValidRegions(free, |src|) && free != [] && free[0].length <= offs
    ensures Reach(src, free, offs, n) == Reach(src, free[1..], offs - free[0].length, n)
  {
    var total := |FreePositions(free)|;
    if offs < total {
      StretchSkip(free, offs, Min(n, total - offs));
    }
  }

  lemma ReachSplit(src: seq<byte>, free: seq<Region>, offs: nat, n: nat, at: nat, b: nat)
    requires ValidRegions(free, |src|) && free != [] && offs < free[0].length && b == Min(n, free[0].length - offs)
    requires at == free[0].offset + offs
    ensures at + b <= |src| && Reach(src, free, offs, n) == src[at..at + b] + Reach(src, free[1..], 0, n - b)
  {
    var total, rest := |FreePositions(free)|, |FreePositions(free[1..])|;
    FreeCount(free);
    var m := Min(n, total - offs);
    CollectSplit(src, free, offs, m, at, b);
    assert m - b == Min(n - b, rest);
    ReachCollects(src, free[1..], n - b, m - b);
  }

  lemma FreeCount(free: seq<Region>)
    requires free != []
    ensures |FreePositions(free)| == free[0].length + |FreePositions(free[1..])|
  {
  }

  lemma ReachCollects(src: seq<byte>, free: seq<Region>, n: nat, m: nat)
    requires ValidRegions(free, |src|) && m == Min(n, |FreePositions(free)|)
    ensures Reach(src, free, 0, n) == Collect(src, free, 0, m)
  {
  }

  /** The state of the walk: n bytes from offset roffs of the remaining regions are still to be delivered. */
  ghost predicate Walking(src: seq<byte>, p: seq<Region>, roffs: nat, n: nat, oob: seq<byte>, all: seq<byte>) {
    ValidRegions(p, |src|) && oob + Reach(src, p, roffs, n) == all
  }

  lemma WalkOn(src: seq<byte>, p: seq<Region>, roffs: nat, n: nat, oob: seq<byte>, all: seq<byte>, at: nat, b: nat)
    requires Walking(src, p, roffs, n, oob, all) && p != [] && roffs < p[0].length && b == Min(n, p[0].length - roffs)
    requires at == p[0].offset + roffs
    ensures at + b <= |src| && Walking(src, p[1..], 0, n - b, oob + src[at..at + b], all)
  {
    ReachSplit(src, p, roffs, n, at, b);
    JoinBytes(oob, src[at..at + b], Reach(src, p[1..], 0, n - b));
  }

  lemma WalkSkip(src: seq<byte>, p: seq<Region>, roffs: nat, n: nat, oob: seq<byte>, all: seq<byte>)
    requires Walking(src, p, roffs, n, oob, all) && p != [] && p[0].length <= roffs
    ensures Walking(src, p[1..], roffs - p[0].length, n, oob, all)
  {
    ReachSkip(src, p, roffs, n);
  }

  lemma WalkEnds(src: seq<byte>, p: seq<Region>, roffs: nat, n: nat, oob: seq<byte>, all: seq<byte>)
    requires Walking(src, p, roffs, n, oob, all) && (HeadLength(p) == 0 || n == 0)
    ensures oob == all
  {
    if p != [] && roffs < |FreePositions(p)| {
      assert Stretch(p, roffs, 0) == [];
    }
    assert oob + [] == oob;
  }

  /** One region of the walk */
  method WalkStep(src: seq<byte>, p: seq<Region>, roffs: nat, n: nat, oob: seq<byte>, ghost all: seq<byte>)
    returns (bytes: nat, roffs': nat, oob': seq<byte>)
    requires Walking(src, p, roffs, n, oob, all) && HeadLength(p) != 0
    ensures bytes <= n && (bytes != 0 ==> roffs' == 0) && Walking(src, p[1..], roffs', n - bytes, oob', all)
  {
    if roffs != 0 && roffs >= p[0].length {
      WalkSkip(src, p, roffs, n, oob, all);
      bytes, roffs', oob' := 0, roffs - p[0].length, oob;
    } else {
      bytes, roffs' := Min(n, p[0].length - roffs), 0;
      var boffs := p[0].offset + roffs;
      WalkOn(src, p, roffs, n, oob, all, boffs, bytes);
      oob' := oob + src[boffs..boffs + bytes];
    }
  }

  /** The AUTO branch of nand_transfer_oob. */
  method TransferAuto(src: seq<byte>, free: seq<Region>, offs: nat, len: nat) returns (oob: seq<byte>)
    requires ValidRegions(free, |src|)
    ensures oob == Reach(src, free, offs, len)
  {
    ghost var all := Reach(src, free, offs, len);
    oob := [];
    assert [] + all == all;
    var p, roffs, n: nat := free, offs, len;
    while HeadLength(p) != 0 && n != 0
      invariant 0 <= roffs && 0 <= n && Walking(src, p, roffs, n, oob, all)
      decreases |p|
    {
      var bytes;
      bytes, roffs, oob := WalkStep(src, p, roffs, n, oob, all);
      p, n := p[1..], n - bytes;
    }
    WalkEnds(src, p, roffs, n, oob, all);
  }

  /** The positions [offs, offs + len) of a list, as far as there are any */
  function Window(slots: seq<nat>, offs: nat, len: nat): (r: seq<nat>)
    ensures offs + len <= |slots| ==> r == slots[offs..offs + len]
    ensures forall i :: 0 <= i < |r| ==> r[i] in slots
  {
    slots[Min(offs, |slots|)..Min(offs + len, |slots|)]
  }

  lemma WindowWithin(slots: seq<nat>, offs: nat, len: nat, size: nat)
    requires Within(slots, size)
    ensures Within(Window(slots, offs, len), size)
  {
  }

  lemma ReachIs(src: seq<byte>, free: seq<Region>, offs: nat, len: nat)
    requires ValidRegions(free, |src|)
    ensures Within(Window(FreePositions(free), offs, len), |src|)
    ensures Reach(src, free, offs, len) == Gather(src, Window(FreePositions(free), offs, len))
  {
    var pos := FreePositions(free);
    FreeWithin(free, |src|);
    WindowWithin(pos, offs, len, |src|);
    if offs >= |pos| {
      assert Window(pos, offs, len) == [];
    } else {
      assert Window(pos, offs, len) == Stretch(free, offs, Min(len, |pos| - offs));
    }
  }

  /** nand_transfer_oob: the client bytes [offs, offs + len) read out of the staging buffer at base. */
  method TransferOob(buf: array<byte>, base: nat, size: nat, free: seq<Region>, mode: Mode, offs: nat, len: nat)
    returns (oob: seq<byte>)
    requires base + size <= buf.Length && ValidRegions(free, size)
    requires !mode.Auto? ==> offs + len <= size
    ensures Within(Window(Slots(free, size, mode), offs, len), size)
    ensures oob == Gather(buf[base..base + size], Window(Slots(free, size, mode), offs, len))
  {
    SlotsWithin(free, size, mode);
    WindowWithin(Slots(free, size, mode), offs, len, size);
    match mode
    case Place | Raw =>
      RangeSlice(size, offs, len);
      GatherConcat(buf[base..base + size], offs, len, []);
      assert Range(offs, len) + [] == Range(offs, len) && Gather(buf[base..base + size], []) == [];
      oob := buf[base..base + size][offs..offs + len];
    case Auto =>
      oob := TransferAuto(buf[base..base + size], free, offs, len);
      ReachIs(buf[base..base + size], free, offs, len);
  }

  /** memcpy into the middle of a buffer */
  method CopyInto(buf: array<byte>, at: nat, src: seq<byte>)
    requires at + |src| <= buf.Length
    modifies buf
    ensures buf[..] == old(buf[..at]) + src + old(buf[at + |src|..])
  {
    forall i | 0 <= i < |src| {
      buf[at + i] := src[i];
    }
  }

  /** The OOB area with client bytes put into a stretch of the free bytes */
  ghost function Deposit(spare: seq<byte>, free: seq<Region>, offs: nat, data: seq<byte>): seq<byte>
    requires ValidRegions(free, |spare|) && offs + |data| <= |FreePositions(free)|
  {
    StretchWithin(free, offs, |data|, |spare|);
    Scatter(spare, Stretch(free, offs, |data|), data)
  }

  lemma DepositSplit(spare: seq<byte>, free: seq<Region>, offs: nat, data: seq<byte>, at: nat, b: nat,
                     patched: seq<byte>, rest: seq<byte>)
    requires ValidRegions(free, |spare|) && offs + |data| <= |FreePositions(free)|
    requires free != [] && offs < free[0].length && b == Min(|data|, free[0].length - offs)
    requires at == free[0].offset + offs && at + b <= |spare|
    requires patched == spare[..at] + data[..b] + spare[at + b..] && rest == data[b..]
    ensures |rest| <= |FreePositions(free[1..])|
    ensures Deposit(spare, free, offs, data) == Deposit(patched, free[1..], 0, rest)
  {
    StretchSplit(free, offs, |data|, b);
    var whole, q := Stretch(free, offs, |data|), Stretch(free[1..], 0, |rest|);
    StretchWithin(free, offs, |data|, |spare|);
    StretchWithin(free[1..], 0, |rest|, |spare|);
    ScatterJoin(spare, at, b, q, whole, data);
  }

  lemma ScatterJoin(spare: seq<byte>, at: nat, b: nat, q: seq<nat>, whole: seq<nat>, data: seq<byte>)
    requires at + b <= |spare| && Within(q, |spare|) && Within(whole, |spare|) && whole == Range(at, b) + q
    requires |data| == |whole|
    ensures Scatter(spare, whole, data) == Scatter(spare[..at] + data[..b] + spare[at + b..], q, data[b..])
  {
    ScatterCopy(spare, at, q, data, b);
  }

  /** memcpy over a whole buffer */
  method CopyAll(buf: array<byte>, src: seq<byte>)
    requires |src| == buf.Length
    modifies buf
    ensures buf[..] == src
  {
    forall i | 0 <= i < |src| {
      buf[i] := src[i];
    }
  }

  /** The AUTO branch of nand_fill_oob. */
  method FillAuto(buf: array<byte>, base: nat, free: seq<Region>, offs: nat, oob: seq<byte>)
    requires base <= buf.Length && ValidRegions(free, buf.Length - base)
    requires offs + |oob| <= |FreePositions(free)|
    modifies buf
    ensures buf[..base] == old(buf[..base])
    ensures buf[base..] == Deposit(old(buf[base..]), free, offs, oob)
  {
    var p, src, boffs, bytes, woffs: nat := free, oob, 0, 0, offs;
    while HeadLength(p) != 0 && |src| != 0
      invariant ValidRegions(p, buf.Length - base)
      invariant 0 <= bytes && (bytes != 0 ==> woffs == 0)
      invariant woffs + |src| <= |FreePositions(p)|
      invariant buf[..base] == old(buf[..base])
      invariant Deposit(buf[base..], p, woffs, src) == Deposit(old(buf[base..]), free, offs, oob)
      decreases |p|
    {
      if woffs != 0 && woffs >= p[0].length {
        StretchSkip(p, woffs, |src|);
        woffs := woffs - p[0].length;
      } else {
        bytes := Min(|src|, p[0].length - woffs);
        boffs := p[0].offset + woffs;
        ghost var spare := buf[base..];
        PlaceChunk(buf, base, boffs, src[..bytes]);
        DepositSplit(spare, p, woffs, src, boffs, bytes, buf[base..], src[bytes..]);
        woffs := 0;
        src := src[bytes..];
      }
      p := p[1..];
    }
  }

  method PlaceChunk(buf: array<byte>, base: nat, at: nat, src: seq<byte>)
    requires base + at + |src| <= buf.Length
    modifies buf
    ensures buf[..base] == old(buf[..base])
    ensures buf[base..] == old(buf[base..])[..at] + src + old(buf[base..])[at + |src|..]
  {
    CopyInto(buf, base + at, src);
    assert buf[..base] == buf[..][..base];
    assert buf[base..] == buf[..][base..];
  }

  /** The PLACE and RAW branch of nand_fill_oob */
  method FillPlace(buf: array<byte>, base: nat, offs: nat, oob: seq<byte>)
    requires base + offs + |oob| <= buf.Length
    modifies buf
    ensures buf[..base] == old(buf[..base])
    ensures Within(Range(offs, |oob|), buf.Length - base)
    ensures buf[base..] == Scatter(old(buf[base..]), Range(offs, |oob|), oob)
  {
    RangeWithin(offs, |oob|, buf.Length - base);
    ScatterRange(buf[base..], offs, oob);
    PlaceChunk(buf, base, offs, oob);
  }

  /** nand_fill_oob: the client bytes placed at [offs, offs + |oob|) of the staging buffer at base. */
  method FillOob(buf: array<byte>, base: nat, free: seq<Region>, mode: Mode, offs: nat, oob: seq<byte>)
    requires base <= buf.Length && ValidRegions(free, buf.Length - base)
    requires offs + |oob| <= |Slots(free, buf.Length - base, mode)|
    modifies buf
    ensures Within(Slots(free, buf.Length - base, mode), buf.Length - base)
    ensures buf[..base] == old(buf[..base])
    ensures buf[base..] == Scatter(old(buf[base..]), Slots(free, buf.Length - base, mode)[offs..offs + |oob|], oob)
  {
    SlotsWithin(free, buf.Length - base, mode);
    match mode
    case Place | Raw =>
      PlaceSlots(free, buf.Length - base, mode, offs, |oob|);
      FillPlace(buf, base, offs, oob);
    case Auto =>
      FillAuto(buf, base, free, offs, oob);
  }

  /** Outside AUTO mode client bytes go to consecutive positions. */
  lemma PlaceSlots(free: seq<Region>, size: nat, mode: Mode, offs: nat, n: nat)
    requires !mode.Auto? && offs + n <= |Slots(free, size, mode)|
    ensures offs + n <= size && Slots(free, size, mode)[offs..offs + n] == Range(offs, n)
  {
    RangeSlice(size, offs, n);
  }

  /** The two differ at most at the listed positions. */
  ghost predicate SameBut(filled: seq<byte>, spare: seq<byte>, pos: seq<nat>) {
    |filled| == |spare| && forall q :: 0 <= q < |spare| && q !in pos ==> filled[q] == spare[q]
  }

  /**
   AUTO fill followed by AUTO transfer gives the client bytes back, and only the free bytes
   asked for change.
   */
  lemma FillThenTransfer(spare: seq<byte>, free: seq<Region>, mode: Mode, offs: nat, oob: seq<byte>, pos: seq<nat>)
    requires ValidRegions(free, |spare|) && DisjointRegions(free)
    requires offs + |oob| <= |Slots(free, |spare|, mode)| && pos == Slots(free, |spare|, mode)[offs..offs + |oob|]
    ensures Within(pos, |spare|)
    ensures Gather(Scatter(spare, pos, oob), pos) == oob && SameBut(Scatter(spare, pos, oob), spare, pos)
  {
    PartDistinct(free, |spare|, mode, offs, |oob|, pos);
    ScatterThenGather(spare, pos, oob);
  }

  lemma PartDistinct(free: seq<Region>, size: nat, mode: Mode, offs: nat, n: nat, part: seq<nat>)
    requires ValidRegions(free, size) && DisjointRegions(free) && offs + n <= |Slots(free, size, mode)|
    requires part == Slots(free, size, mode)[offs..offs + n]
    ensures Within(part, size) && Distinct(part)
  {
    SlotsWithin(free, size, mode);
    SlotsDistinct(free, size, mode);
    SliceKeeps(Slots(free, size, mode), size, offs, n, part);
  }

  lemma SliceKeeps(pos: seq<nat>, size: nat, offs: nat, n: nat, part: seq<nat>)
    requires Within(pos, size) && Distinct(pos) && offs + n <= |pos| && part == pos[offs..offs + n]
    ensures Within(part, size) && Distinct(part)
  {
    forall i | 0 <= i < |part| ensures part[i] < size {
      assert part[i] == pos[offs + i];
    }
    forall i, k | 0 <= i < k < |part| ensures part[i] != part[k] {
      assert part[i] == pos[offs + i] && part[k] == pos[offs + k];
    }
  }

  lemma ScatterThenGather(spare: seq<byte>, pos: seq<nat>, oob: seq<byte>)
    requires Within(pos, |spare|) && Distinct(pos) && |oob| == |pos|
    ensures Gather(Scatter(spare, pos, oob), pos) == oob && SameBut(Scatter(spare, pos, oob), spare, pos)
  {
    var filled := Scatter(spare, pos, oob);
    forall i | 0 <= i < |oob| ensures Gather(filled, pos)[i] == oob[i] {
      ScatterAt(spare, pos, oob, i);
      GatherAt(filled, pos, i);
    }
    forall q | 0 <= q < |spare| && q !in pos ensures filled[q] == spare[q] {
      ScatterOther(spare, pos, oob, q);
    }
  }
}
