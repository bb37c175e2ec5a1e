/**
 The transmit side of the DM9000 driver: a queue two packets deep, filled by `dm9000_start_xmit` and
 drained by completion interrupts, with a watchdog that resets the chip.
 */
module DmTransmit {

  /** A packet of the network stack: its length, its checksum request (0 is CHECKSUM_NONE), and its identity */
  datatype Packet = Packet(len: nat, sum: nat, id: nat)

  /** A packet on the wire: what was in the transmit memory, the length the chip was told, and its checksum setting */
  datatype Sent = Sent(pkt: Packet, len: nat, hw: bool)

  /** TCCR, the transmit memory, the length of the request being served (-1: none), and an unreported completion */
  datatype Chip = Chip(tccr: bool, ram: seq<Packet>, req: int, done: bool, sent: seq<Sent>)

  /** Where the one serialised xmit call stands: outside, or past its test of the count */
  datatype Call = NoCall | Passed(pkt: Packet)

  datatype State = State(
    cnt: int, queueLen: nat, queueSum: nat, summed: nat,   // tx_pkt_cnt, queue_pkt_len, queue_ip_summed, ip_summed
    stopped: bool, chip: Chip, call: Call,
    accepted: seq<Packet>)                                 // the packets taken since the last reset, in order

  predicate Wants(sum: nat) {
    sum != 0
  }

  /** TXPLL and TXPLH, put together again */
  function LengthRegisters(len: nat): nat {
    len % 256 + 256 * (len / 256 % 256)
  }

  /** dm9000_send_packet */
  function SendPacket(s: State, sum: nat, len: nat): State {
    var tccr := if s.summed != sum then Wants(sum) else s.chip.tccr;
    s.(summed := sum, chip := s.chip.(tccr := tccr, req := LengthRegisters(len)))
  }

  /** dm9000_start_xmit once the lock is held */
  function XmitBody(s: State, pkt: Packet): State {
    var t := s.(cnt := s.cnt + 1, accepted := s.accepted + [pkt], call := NoCall,
                chip := s.chip.(ram := s.chip.ram + [pkt]));
    if t.cnt == 1 then SendPacket(t, pkt.sum, pkt.len)
    else t.(queueLen := pkt.len, queueSum := pkt.sum, stopped := true)
  }

  /** dm9000_tx_done, with the completion seen in NSR taken back */
  function TxDone(s: State): State {
    if !s.chip.done then s
    else
      var t := s.(cnt := s.cnt - 1, chip := s.chip.(done := false));
      (if t.cnt > 0 then SendPacket(t, t.queueSum, t.queueLen) else t).(stopped := false)
  }

  /** dm9000_timeout: the chip is reset, TCCR and transmit memory included; ip_summed is not touched. */
  function Timeout(s: State): State {
    s.(cnt := 0, queueLen := 0, stopped := false, accepted := [], chip := Chip(false, [], -1, false, []))
  }

  /** The chip finishes the request it serves. */
  function Complete(s: State): State
    requires s.chip.req >= 0 && s.chip.ram != []
  {
    var c := s.chip;
    s.(chip := Chip(c.tccr, c.ram[1..], -1, true, c.sent + [Sent(c.ram[0], c.req, c.tccr)]))
  }

  // ---------------------------------------------------------------- the driver, in place

  class Board {
    var cnt: int
    var queueLen: nat
    var queueSum: nat
    var summed: nat
    var stopped: bool
    var chip: Chip
    ghost var call: Call
    ghost var accepted: seq<Packet>

    ghost function Now(): State
      reads this
    {
      State(cnt, queueLen, queueSum, summed, stopped, chip, call, accepted)
    }

    /** The probed device: nothing queued, no checksums */
    constructor ()
      ensures Now() == State(0, 0, 0, 0, false, Chip(false, [], -1, false, []), NoCall, [])
    {
      cnt, queueLen, queueSum, summed, stopped := 0, 0, 0, 0, false;
      chip, call, accepted := Chip(false, [], -1, false, []), NoCall, [];
    }

    method Send(sum: nat, len: nat)
      modifies this
      ensures Now() == SendPacket(old(Now()), sum, len)
    {
      if summed != sum {
        if sum == 0 {
          chip := chip.(tccr := false);
        } else {
          chip := chip.(tccr := true);
        }
        summed := sum;
      }
      chip := chip.(req := len % 256 + 256 * (len / 256 % 256));
    }

    /** The test dm9000_start_xmit makes before it takes the lock */
    method Test(pkt: Packet) returns (busy: bool)
      requires call.NoCall?
      modifies this
      ensures busy == (old(cnt) > 1)
      ensures Now() == if busy then old(Now()) else old(Now()).(call := Passed(pkt))
    {
      busy := cnt > 1;
      if !busy {
        call := Passed(pkt);
      }
    }

    method Xmit(pkt: Packet)
      requires call == Passed(pkt)
      modifies this
      ensures Now() == XmitBody(old(Now()), pkt)
    {
      chip := chip.(ram := chip.ram + [pkt]);
      accepted, call := accepted + [pkt], NoCall;
      cnt := cnt + 1;
      if cnt == 1 {
        Send(pkt.sum, pkt.len);
      } else {
        queueLen := pkt.len;
        queueSum := pkt.sum;
        stopped := true;
      }
    }

    method Done()
      modifies this
      ensures Now() == TxDone(old(Now()))
    {
      if chip.done {
        chip := chip.(done := false);
        cnt := cnt - 1;
        if cnt > 0 {
          Send(queueSum, queueLen);
        }
        stopped := false;
      }
    }

    method Watchdog()
      modifies this
      ensures Now() == Timeout(old(Now()))
    {
      stopped := true;
      chip := Chip(false, [], -1, false, []);
      accepted := [];
      cnt, queueLen := 0, 0;
      stopped := false;
    }
  }

  // ---------------------------------------------------------------- interleavings

  datatype Action = Check(pkt: Packet) | Body | Finish | Interrupt | Watch

  predicate Enabled(s: State, a: Action) {
    match a
    case Check(pkt) => s.call.NoCall? && pkt.len < 65536
    case Body => s.call.Passed?
    case Finish => s.chip.req >= 0 && s.chip.ram != []
    case Interrupt => true
    case Watch => true
  }

  function Next(s: State, a: Action): State
    requires Enabled(s, a)
  {
    match a
    case Check(pkt) => if s.cnt > 1 then s else s.(call := Passed(pkt))
    case Body => XmitBody(s, s.call.pkt)
    case Finish => Complete(s)
    case Interrupt => TxDone(s)
    case Watch => Timeout(s)
  }

  function PacketsOf(sent: seq<Sent>): (r: seq<Packet>)
    ensures |r| == |sent| && forall i :: 0 <= i < |sent| ==> r[i] == sent[i].pkt
  {
    if sent == [] then [] else [sent[0].pkt] + PacketsOf(sent[1..])
  }

  /** Packets accepted since the last reset are sent once each, in order, with their own lengths. */
  ghost predicate InOrder(s: State) {
    && s.accepted == PacketsOf(s.chip.sent) + s.chip.ram
    && forall i :: 0 <= i < |s.chip.sent| ==> s.chip.sent[i].len == s.chip.sent[i].pkt.len
  }

  ghost predicate Inv(s: State) {
    && 0 <= s.cnt <= 2
    && (s.stopped <==> s.cnt == 2)
    && !(s.chip.req >= 0 && s.chip.done)
    && (s.chip.req >= 0 || s.chip.done <==> s.cnt >= 1)
    && |s.chip.ram| == s.cnt - (if s.chip.done then 1 else 0)
    && (s.chip.req >= 0 ==> s.chip.req == s.chip.ram[0].len)
    && (s.cnt == 2 ==> var last := s.chip.ram[|s.chip.ram| - 1]; s.queueLen == last.len && s.queueSum == last.sum)
    && (forall i :: 0 <= i < |s.chip.ram| ==> s.chip.ram[i].len < 65536)
    && (s.call.Passed? ==> s.cnt <= 1 && s.call.pkt.len < 65536)
    && InOrder(s)
  }

  /** The chip's checksum setting is what ip_summed says, and every packet went out with its own. */
  ghost predicate OwnSums(s: State)
    requires Inv(s)
  {
    && s.chip.tccr == Wants(s.summed)
    && (s.chip.req >= 0 ==> s.chip.tccr == Wants(s.chip.ram[0].sum))
    && forall i :: 0 <= i < |s.chip.sent| ==> s.chip.sent[i].hw == Wants(s.chip.sent[i].pkt.sum)
  }

  ghost predicate Start(s: State) {
    s == State(0, 0, 0, 0, false, Chip(false, [], -1, false, []), NoCall, [])
  }

  lemma LengthKept(len: nat)
    requires len < 65536
    ensures LengthRegisters(len) == len
  {
  }

  lemma BodyKeeps(s: State)
    requires Inv(s) && s.call.Passed?
    ensures Inv(Next(s, Body))
    ensures OwnSums(s) ==> OwnSums(Next(s, Body))
  {
    var pkt, t := s.call.pkt, Next(s, Body);
    LengthKept(pkt.len);
    assert t.chip.ram == s.chip.ram + [pkt] && t.chip.sent == s.chip.sent;
    assert s.accepted + [pkt] == PacketsOf(s.chip.sent) + (s.chip.ram + [pkt]);
  }

  lemma FinishKeeps(s: State)
    requires Inv(s) && Enabled(s, Finish)
    ensures Inv(Next(s, Finish))
    ensures OwnSums(s) ==> OwnSums(Next(s, Finish))
  {
    var t, first := Next(s, Finish), s.chip.ram[0];
    assert PacketsOf(t.chip.sent) == PacketsOf(s.chip.sent) + [first];
    assert s.chip.ram == [first] + s.chip.ram[1..];
    assert PacketsOf(s.chip.sent) + [first] + s.chip.ram[1..] == PacketsOf(s.chip.sent) + ([first] + s.chip.ram[1..]);
  }

  lemma InterruptKeeps(s: State)
    requires Inv(s)
    ensures Inv(Next(s, Interrupt))
    ensures OwnSums(s) ==> OwnSums(Next(s, Interrupt))
  {
    if s.chip.done && s.cnt == 2 {
      LengthKept(s.queueLen);
    }
  }

  /** Every step keeps the queue in order, resets included. */
  lemma StepKeeps(s: State, a: Action)
    requires Inv(s) && Enabled(s, a)
    ensures Inv(Next(s, a))
  {
    match a
    case Check(pkt) =>
    case Body => BodyKeeps(s);
    case Finish => FinishKeeps(s);
    case Interrupt => InterruptKeeps(s);
    case Watch =>
  }

  /** A step keeps every packet's own checksum setting, if it is not a reset while checksums are on. */
  lemma StepKeepsSums(s: State, a: Action)
    requires Inv(s) && OwnSums(s) && Enabled(s, a) && (a.Watch? ==> !Wants(s.summed))
    ensures Inv(Next(s, a)) && OwnSums(Next(s, a))
  {
    StepKeeps(s, a);
    match a
    case Check(pkt) =>
    case Body => BodyKeeps(s);
    case Finish => FinishKeeps(s);
    case Interrupt => InterruptKeeps(s);
    case Watch =>
  }

  /** A packet is taken, behind those taken before, whenever fewer than two are queued, and refused otherwise. */
  lemma TakenWhenRoom(s: State, pkt: Packet)
    requires Inv(s) && s.call.NoCall? && pkt.len < 65536
    ensures s.cnt < 2 ==> Enabled(Next(s, Check(pkt)), Body)
    ensures s.cnt < 2 ==> var t := Next(Next(s, Check(pkt)), Body);
                          t.accepted == s.accepted + [pkt] && t.cnt == s.cnt + 1 && t.stopped == (s.cnt == 1)
                          && (s.cnt == 0 ==> t.chip.req >= 0)
    ensures s.cnt == 2 ==> Next(s, Check(pkt)) == s
  {
  }

  /** A reset keeps the chip and ip_summed in step exactly when no checksums were asked for. */
  lemma ResetExact(s: State)
    requires Inv(s) && OwnSums(s)
    ensures Inv(Timeout(s))
    ensures OwnSums(Timeout(s)) <==> !Wants(s.summed)
  {
  }

  /** After such a reset a packet goes out with its own setting exactly when its request differs from the stale one, or is none. */
  lemma StaleSend(s: State, pkt: Packet)
    ensures SendPacket(Timeout(s), pkt.sum, pkt.len).chip.tccr == Wants(pkt.sum) <==> pkt.sum != s.summed || !Wants(pkt.sum)
  {
  }

  // ---------------------------------------------------------------- whole runs

  ghost predicate Run(s: State, acts: seq<Action>)
    decreases |acts|
  {
    acts == [] || (Enabled(s, acts[0]) && Run(Next(s, acts[0]), acts[1..]))
  }

  ghost function After(s: State, acts: seq<Action>): State
    requires Run(s, acts)
    decreases |acts|
  {
    if acts == [] then s else After(Next(s, acts[0]), acts[1..])
  }

  /** No reset happens while checksums are on. */
  ghost predicate CalmResets(s: State, acts: seq<Action>)
    requires Run(s, acts)
    decreases |acts|
  {
    acts == [] || ((acts[0].Watch? ==> !Wants(s.summed)) && CalmResets(Next(s, acts[0]), acts[1..]))
  }

  lemma {:induction false} RunKeeps(s: State, acts: seq<Action>)
    requires Inv(s) && Run(s, acts)
    ensures Inv(After(s, acts))
    ensures OwnSums(s) && CalmResets(s, acts) ==> OwnSums(After(s, acts))
    decreases |acts|
  {
    if acts != [] {
      StepKeeps(s, acts[0]);
      if OwnSums(s) && CalmResets(s, acts) {
        StepKeepsSums(s, acts[0]);
      }
      RunKeeps(Next(s, acts[0]), acts[1..]);
    }
  }

  /**
   In every interleaving of xmit calls, completions, interrupts and watchdog resets the count stays in
   0..2, the queue is stopped exactly at 2, one request at most is in the chip, and packets go out once
   each, in the order they were accepted, with their own lengths; with their own checksum settings too,
   if no reset comes while checksums are on.
   */
  lemma TransmitInOrder(s: State, acts: seq<Action>)
    requires Start(s) && Run(s, acts)
    ensures var t := After(s, acts);
            && 0 <= t.cnt <= 2 && (t.stopped <==> t.cnt == 2)
            && !(t.chip.req >= 0 && t.chip.done)
            && InOrder(t)
            && (CalmResets(s, acts) ==> forall i :: 0 <= i < |t.chip.sent| ==> t.chip.sent[i].hw == Wants(t.chip.sent[i].pkt.sum))
  {
    RunKeeps(s, acts);
  }

  /** A packet that wants checksums is sent, the watchdog resets the chip, and the next such packet follows. */
  function StaleRun(pkt: Packet): seq<Action> {
    [Check(pkt), Body, Watch, Check(pkt), Body, Finish]
  }

  lemma RunCons(s: State, a: Action, acts: seq<Action>)
    requires Enabled(s, a) && Run(Next(s, a), acts)
    ensures Run(s, [a] + acts) && After(s, [a] + acts) == After(Next(s, a), acts)
  {
    assert ([a] + acts)[1..] == acts;
  }

  /** That run puts the second packet on the wire without the checksums it asked for. */
  lemma StalePacketSent(s: State, pkt: Packet)
    requires Start(s) && Wants(pkt.sum) && pkt.len < 65536
    ensures Run(s, StaleRun(pkt)) && !CalmResets(s, StaleRun(pkt))
    ensures After(s, StaleRun(pkt)).chip.sent == [Sent(pkt, pkt.len, false)]
  {
    LengthKept(pkt.len);
    var s1 := Next(s, Check(pkt));
    var s2 := Next(s1, Body);
    var s3 := Next(s2, Watch);
    var s4 := Next(s3, Check(pkt));
    var s5 := Next(s4, Body);
    assert s5.chip.ram == [pkt] && s5.chip.req == pkt.len && !s5.chip.tccr;
    var s6 := Next(s5, Finish);
    assert s6.chip.sent == [Sent(pkt, pkt.len, false)];
    assert Run(s6, []) && After(s6, []) == s6;
    RunCons(s5, Finish, []);
    RunCons(s4, Body, [Finish] + []);
    RunCons(s3, Check(pkt), [Body] + ([Finish] + []));
    RunCons(s2, Watch, [Check(pkt)] + ([Body] + ([Finish] + [])));
    RunCons(s1, Body, [Watch] + ([Check(pkt)] + ([Body] + ([Finish] + []))));
    RunCons(s, Check(pkt), [Body] + ([Watch] + ([Check(pkt)] + ([Body] + ([Finish] + [])))));
    var acts := [Check(pkt)] + ([Body] + ([Watch] + ([Check(pkt)] + ([Body] + ([Finish] + [])))));
    assert acts == StaleRun(pkt);
    assert acts[1..][1..][0] == Watch && Wants(s2.summed);
    assert !CalmResets(s2, acts[1..][1..]);
  }
}
