/**
 The button driver's flag protocol: the interrupt handler stores a button's state and then raises
 `action_flag`; the reader lowers the flag and then copies the states, byte by byte.
 */
module Buttons {

  /** The reader: outside, or past the clearing of the flag with the first |got| states copied of `want` */
  datatype Reader = Idle | Copying(got: seq<char>, want: nat)

  datatype State = State(
    values: seq<char>, flag: bool,        // buttons_values, action_flag
    midway: nat,                          // handlers that have stored a state and not yet raised the flag
    reader: Reader,
    last: seq<char>)                      // the states the reader knows of

  /** The end of open: all buttons released, no event. */
  function Opened(): State {
    State(['r', 'r', 'r', 'r'], false, 0, Idle, ['r', 'r', 'r', 'r'])
  }

  datatype Action =
    | Store(n: nat, down: bool)           // the handler's first step
    | Signal                              // and its second
    | Clear(count: nat)                   // a read of count bytes gets past its wait and lowers the flag
    | Copy                                // copy_to_user moves one byte
    | Leave                               // the read returns

  ghost predicate Valid(s: State) {
    && |s.values| == 4 == |s.last|
    && (s.reader.Copying? ==> |s.reader.got| <= s.reader.want <= 4)
  }

  predicate Enabled(s: State, a: Action) {
    match a
    case Store(n, _) => n < 4 && |s.values| == 4
    case Signal => s.midway > 0
    case Clear(_) => s.reader.Idle?
    case Copy => s.reader.Copying? && |s.reader.got| < s.reader.want <= 4 == |s.values|
    case Leave => s.reader.Copying? && |s.reader.got| == s.reader.want <= 4 == |s.last|
  }

  function Next(s: State, a: Action): State
    requires Enabled(s, a)
  {
    match a
    case Store(n, down) => s.(values := s.values[n := if down then 'p' else 'r'], midway := s.midway + 1)
    case Signal => s.(flag := true, midway := s.midway - 1)
    case Clear(count) => s.(flag := false, reader := Copying([], if count < 4 then count else 4))
    case Copy => s.(reader := Copying(s.reader.got + [s.values[|s.reader.got|]], s.reader.want))
    case Leave => s.(reader := Idle, last := s.reader.got + s.last[|s.reader.got|..])
  }

  /** The globals and the two routines that share them */
  class Driver {
    var values: seq<char>
    var flag: bool

    constructor ()
      ensures values == Opened().values && !flag
    {
      values, flag := ['r', 'r', 'r', 'r'], false;
    }

    /** buttons_interrupt, up to the flag */
    method StoreState(n: nat, pinHigh: bool, ghost s: State)
      requires n < 4 && |values| == 4 && s.values == values && s.flag == flag
      modifies this
      ensures State(values, flag, s.midway + 1, s.reader, s.last) == Next(s, Store(n, !pinHigh))
    {
      if !pinHigh {
        values := values[n := 'p'];
      } else {
        values := values[n := 'r'];
      }
    }

    /** buttons_interrupt, the flag */
    method Raise(ghost s: State)
      requires s.values == values && s.flag == flag && s.midway > 0
      modifies this
      ensures State(values, flag, s.midway - 1, s.reader, s.last) == Next(s, Signal)
    {
      flag := true;
    }

    /** s3c6410_buttons_read, the clearing of the flag */
    method Lower(count: nat, ghost s: State) returns (readCount: nat)
      requires s.values == values && s.flag == flag && s.reader.Idle?
      modifies this
      ensures State(values, flag, s.midway, Copying([], readCount), s.last) == Next(s, Clear(count))
    {
      readCount := if 4 < count then 4 else count;
      flag := false;
    }
  }

  // ---------------------------------------------------------------- no event is lost

  /** What the reader has of button b once the read in progress is over, as far as it has come */
  function Seen(s: State, b: nat): char
    requires b < 4 == |s.last|
  {
    if s.reader.Copying? && b < |s.reader.got| then s.reader.got[b] else s.last[b]
  }

  /** Button b is known to the reader as it is, or the reader will still hear of it. */
  ghost predicate Heard(s: State, b: nat)
    requires Valid(s) && b < 4
  {
    || s.values[b] == Seen(s, b)
    || s.flag || s.midway > 0
    || (s.reader.Copying? && |s.reader.got| <= b < s.reader.want)
  }

  ghost predicate Inv(s: State) {
    Valid(s) && forall b :: 0 <= b < 4 ==> Heard(s, b)
  }

  /** The step starts no read of fewer than four states. */
  predicate WholeRead(a: Action) {
    a.Clear? ==> a.count >= 4
  }

  lemma StepKeeps(s: State, a: Action)
    requires Inv(s) && Enabled(s, a) && WholeRead(a)
    ensures Inv(Next(s, a))
  {
    var t := Next(s, a);
    forall b | 0 <= b < 4 ensures Heard(t, b) {
      assert Heard(s, b);
      if a.Leave? {
        assert t.last[b] == if b < |s.reader.got| then s.reader.got[b] else s.last[b];
      }
    }
  }

  ghost predicate Run(s: State, acts: seq<Action>)
    decreases |acts|
  {
    acts == [] || (Enabled(s, acts[0]) && Run(Next(s, acts[0]), acts[1..]))
  }

  ghost function After(s: State, acts: seq<Action>): State
    requires Run(s, acts)
    decreases |acts|
  {
    if acts == [] then s else After(Next(s, acts[0]), acts[1..])
  }

  lemma {:induction false} RunKeeps(s: State, acts: seq<Action>)
    requires Inv(s) && Run(s, acts) && forall i :: 0 <= i < |acts| ==> WholeRead(acts[i])
    ensures Inv(After(s, acts))
    decreases |acts|
  {
    if acts != [] {
      StepKeeps(s, acts[0]);
      RunKeeps(Next(s, acts[0]), acts[1..]);
    }
  }

  /**
   In every interleaving of handler steps with a reader that takes all four states: when the reader is
   outside, no handler is midway and the flag is down, the reader knows every button's state.
   */
  lemma NoEventLost(acts: seq<Action>)
    requires Run(Opened(), acts) && forall i :: 0 <= i < |acts| ==> WholeRead(acts[i])
    ensures var s := After(Opened(), acts);
            s.reader.Idle? && s.midway == 0 && !s.flag ==> s.last == s.values
  {
    RunKeeps(Opened(), acts);
    var s := After(Opened(), acts);
    if s.reader.Idle? && s.midway == 0 && !s.flag {
      forall b | 0 <= b < 4 ensures s.last[b] == s.values[b] {
        assert Heard(s, b);
      }
    }
  }

  // ---------------------------------------------------------------- what the states mean

  /** Whether button b was down after the last of its edges; all start released. */
  function DownAfter(acts: seq<Action>, b: nat): bool {
    if acts == [] then false
    else
      var last := acts[|acts| - 1];
      if last.Store? && last.n == b then last.down else DownAfter(acts[..|acts| - 1], b)
  }

  /** One more step at the end of a run */
  lemma {:induction false} RunSnoc(s: State, acts: seq<Action>, a: Action)
    requires Run(s, acts + [a])
    ensures Run(s, acts) && Enabled(After(s, acts), a) && After(s, acts + [a]) == Next(After(s, acts), a)
    decreases |acts|
  {
    if acts == [] {
      assert acts + [a] == [a] && [a][1..] == [];
    } else {
      assert (acts + [a])[1..] == acts[1..] + [a];
      RunSnoc(Next(s, acts[0]), acts[1..], a);
    }
  }

  /** In every run the stored state of a button is that of its last edge. */
  lemma {:induction false} ValuesAreEdges(acts: seq<Action>, b: nat)
    requires Run(Opened(), acts) && b < 4
    ensures |After(Opened(), acts).values| == 4
    ensures After(Opened(), acts).values[b] == if DownAfter(acts, b) then 'p' else 'r'
    decreases |acts|
  {
    if acts != [] {
      var before, last := acts[..|acts| - 1], acts[|acts| - 1];
      assert acts == before + [last];
      RunSnoc(Opened(), before, last);
      ValuesAreEdges(before, b);
    }
  }

  /** When all is quiet the reader knows of each button whether it is pressed ('p') or released ('r'). */
  lemma QuietKnowsEdges(acts: seq<Action>, b: nat)
    requires Run(Opened(), acts) && (forall i :: 0 <= i < |acts| ==> WholeRead(acts[i])) && b < 4
    ensures var s := After(Opened(), acts);
            s.reader.Idle? && s.midway == 0 && !s.flag ==>
              |s.last| == 4 && s.last[b] == if DownAfter(acts, b) then 'p' else 'r'
  {
    NoEventLost(acts);
    ValuesAreEdges(acts, b);
  }

  // ---------------------------------------------------------------- reads of fewer states

  /** The last button goes down, and a read of fewer than four states takes the news away. */
  function LosingRun(count: nat): seq<Action> {
    [Store(3, true), Signal, Clear(count)] + Copies(count) + [Leave]
  }

  function Copies(n: nat): (r: seq<Action>)
    ensures |r| == n && forall i :: 0 <= i < n ==> r[i] == Copy
  {
    if n == 0 then [] else [Copy] + Copies(n - 1)
  }

  /** The copying and the return, from wherever the copy stands */
  lemma {:induction false} CopiesRun(s: State, n: nat)
    requires |s.values| == 4 == |s.last| && s.reader.Copying? && |s.reader.got| + n == s.reader.want <= 4
    ensures Run(s, Copies(n) + [Leave])
    ensures var t := After(s, Copies(n) + [Leave]);
            && t.values == s.values && t.flag == s.flag && t.midway == s.midway && t.reader.Idle?
            && |t.last| == 4 && t.last[s.reader.want..] == s.last[s.reader.want..]
    decreases n
  {
    var acts := Copies(n) + [Leave];
    if n == 0 {
      assert acts == [Leave] && acts[1..] == [];
      assert Run(Next(s, Leave), acts[1..]) && After(Next(s, Leave), acts[1..]) == Next(s, Leave);
    } else {
      assert acts[0] == Copy && acts[1..] == Copies(n - 1) + [Leave];
      CopiesRun(Next(s, Copy), n - 1);
    }
  }

  lemma ShortReadLoses(count: nat)
    requires count < 4
    ensures Run(Opened(), LosingRun(count))
    ensures var s := After(Opened(), LosingRun(count));
            s.reader.Idle? && s.midway == 0 && !s.flag && s.last != s.values
  {
    var s0, acts := Opened(), LosingRun(count);
    var s1 := Next(s0, Store(3, true));
    var s2 := Next(s1, Signal);
    var s3 := Next(s2, Clear(count));
    assert acts[0] == Store(3, true) && acts[1..][0] == Signal && acts[1..][1..][0] == Clear(count);
    assert acts[1..][1..][1..] == Copies(count) + [Leave];
    CopiesRun(s3, count);
    var t := After(s3, Copies(count) + [Leave]);
    assert Run(s2, acts[1..][1..]) && After(s2, acts[1..][1..]) == t;
    assert Run(s1, acts[1..]) && After(s1, acts[1..]) == t;
    assert t.last[count..][3 - count] == s3.last[count..][3 - count];
    assert s3.last[3] == 'r' && t.values[3] == 'p';
  }

  /** Every read of the run asks for `count` states. */
  ghost predicate ReadsOf(acts: seq<Action>, count: nat) {
    forall i :: 0 <= i < |acts| && acts[i].Clear? ==> acts[i].count == count
  }

  /** Whenever all is quiet the reader knows every button, in every run whose reads ask for `count` states. */
  ghost predicate AlwaysHeard(count: nat) {
    forall acts: seq<Action> :: Run(Opened(), acts) && ReadsOf(acts, count) ==> QuietMeansKnown(After(Opened(), acts))
  }

  predicate QuietMeansKnown(s: State) {
    s.reader.Idle? && s.midway == 0 && !s.flag ==> s.last == s.values
  }

  /** That is so exactly for readers that ask for all four states. */
  lemma ReadSizeExact(count: nat)
    ensures AlwaysHeard(count) <==> count >= 4
  {
    if count >= 4 {
      forall acts: seq<Action> | Run(Opened(), acts) && ReadsOf(acts, count) ensures QuietMeansKnown(After(Opened(), acts)) {
        NoEventLost(acts);
      }
    } else {
      ShortReadLoses(count);
      assert ReadsOf(LosingRun(count), count);
      assert !QuietMeansKnown(After(Opened(), LosingRun(count)));
    }
  }
}
