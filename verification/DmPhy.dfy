/**
 PHY and EEPROM access of the DM9000 driver: each call works in two spinlocked sections under one mutex,
 and drops the spinlock between them while the chip works. The registers are reached through an
 index/data pair.
 */
module DmPhy {

  const EPCR := 0x0B
  const EPAR := 0x0C
  const EPDRL := 0x0D
  const EPDRH := 0x0E

  const PHY_READ := 0x0C        // EPCR_ERPRR | EPCR_EPOS
  const PHY_WRITE := 0x0A       // EPCR_EPOS | EPCR_ERPRW
  const ROM_READ := 0x04        // EPCR_ERPRR
  const ROM_WRITE := 0x12       // EPCR_WEP | EPCR_ERPRW

  /** The index register, the byte registers, the words behind EPAR, and a command not yet carried out */
  datatype Device = Device(index: nat, regs: seq<nat>, phy: seq<nat>, rom: seq<nat>, pending: bool)

  ghost predicate ValidDevice(d: Device) {
    && |d.regs| == 256 && |d.phy| == 64 && |d.rom| == 64
    && (forall i :: 0 <= i < 256 ==> d.regs[i] < 256)
    && (forall i :: 0 <= i < 64 ==> d.phy[i] < 65536 && d.rom[i] < 65536)
  }

  /** A 16-bit word from its two bytes */
  function Word(high: nat, low: nat): nat {
    256 * high + low
  }

  /** writeb(reg, io_addr); writeb(value, io_data) */
  function Iow(d: Device, reg: nat, v: nat): (r: Device)
    requires ValidDevice(d) && reg < 256
    ensures ValidDevice(r)
  {
    d.(index := reg, regs := d.regs[reg := v % 256], pending := if reg == EPCR then v % 256 != 0 else d.pending)
  }

  /** writeb(reg, io_addr); readb(io_data) */
  function Ior(d: Device, reg: nat): Device {
    d.(index := reg)
  }

  /** The chip carries out the command in EPCR. */
  function Execute(d: Device): (r: Device)
    requires ValidDevice(d)
    ensures ValidDevice(r)
  {
    var a, cmd, word := d.regs[EPAR] % 64, d.regs[EPCR], Word(d.regs[EPDRH], d.regs[EPDRL]);
    if cmd == PHY_READ then
      d.(pending := false, regs := d.regs[EPDRL := d.phy[a] % 256][EPDRH := d.phy[a] / 256])
    else if cmd == ROM_READ then
      d.(pending := false, regs := d.regs[EPDRL := d.rom[a] % 256][EPDRH := d.rom[a] / 256])
    else if cmd == PHY_WRITE then d.(pending := false, phy := d.phy[a := word])
    else if cmd == ROM_WRITE then d.(pending := false, rom := d.rom[a := word])
    else d.(pending := false)
  }

  datatype Op = PhyRead(reg: nat) | PhyWrite(reg: nat, value: nat) | RomRead(reg: nat) | RomWrite(reg: nat, value: nat)

  predicate ValidOp(op: Op) {
    op.reg < 64 && (op.PhyWrite? || op.RomWrite? ==> op.value < 65536)
  }

  /** The first section of a call */
  function First(d: Device, op: Op): (r: Device)
    requires ValidDevice(d) && ValidOp(op)
    ensures ValidDevice(r)
  {
    match op
    case PhyRead(reg) => Iow(Iow(d, EPAR, 0x40 + reg), EPCR, PHY_READ).(index := d.index)
    case PhyWrite(reg, value) =>
      Iow(Iow(Iow(Iow(d, EPAR, 0x40 + reg), EPDRL, value), EPDRH, value / 256), EPCR, PHY_WRITE).(index := d.index)
    case RomRead(reg) => Iow(Iow(d, EPAR, reg), EPCR, ROM_READ)
    case RomWrite(reg, value) => Iow(Iow(Iow(Iow(d, EPAR, reg), EPDRH, value / 256), EPDRL, value), EPCR, ROM_WRITE)
  }

  /** The second section: the command is cleared, and a read picks up its word. */
  function Second(d: Device, op: Op): (r: Device)
    requires ValidDevice(d)
    ensures ValidDevice(r)
  {
    match op
    case PhyRead(_) => Ior(Ior(Iow(d, EPCR, 0), EPDRH), EPDRL).(index := d.index)
    case PhyWrite(_, _) => Iow(d, EPCR, 0).(index := d.index)
    case RomRead(_) => Ior(Ior(Iow(d, EPCR, 0), EPDRL), EPDRH)
    case RomWrite(_, _) => Iow(d, EPCR, 0)
  }

  function Result(d: Device): nat
    requires ValidDevice(d)
  {
    Word(d.regs[EPDRH], d.regs[EPDRL])
  }

  // ---------------------------------------------------------------- the driver, register by register

  class Port {
    var dev: Device

    constructor (dev: Device)
      ensures this.dev == dev
    {
      this.dev := dev;
    }

    method Write(reg: nat, v: nat)
      requires ValidDevice(dev) && reg < 256
      modifies this
      ensures dev == Iow(old(dev), reg, v)
    {
      dev := dev.(index := reg);
      dev := dev.(regs := dev.regs[dev.index := v % 256], pending := if dev.index == EPCR then v % 256 != 0 else dev.pending);
    }

    method Read(reg: nat) returns (v: nat)
      requires ValidDevice(dev) && reg < 256
      modifies this
      ensures dev == Ior(old(dev), reg) && v == dev.regs[reg]
    {
      dev := dev.(index := reg);
      v := dev.regs[dev.index];
    }

    /** Before the sleep of dm9000_phy_read, dm9000_phy_write, dm9000_read_eeprom or dm9000_write_eeprom */
    method Begin(op: Op)
      requires ValidDevice(dev) && ValidOp(op)
      modifies this
      ensures dev == First(old(dev), op)
    {
      var save := dev.index;
      match op {
        case PhyRead(reg) =>
          Write(EPAR, 0x40 + reg);
          Write(EPCR, PHY_READ);
          dev := dev.(index := save);
        case PhyWrite(reg, value) =>
          Write(EPAR, 0x40 + reg);
          Write(EPDRL, value);
          Write(EPDRH, value / 256);
          Write(EPCR, PHY_WRITE);
          dev := dev.(index := save);
        case RomRead(reg) =>
          Write(EPAR, reg);
          Write(EPCR, ROM_READ);
        case RomWrite(reg, value) =>
          Write(EPAR, reg);
          Write(EPDRH, value / 256);
          Write(EPDRL, value);
          Write(EPCR, ROM_WRITE);
      }
    }

    /** After it */
    method End(op: Op) returns (word: nat)
      requires ValidDevice(dev)
      modifies this
      ensures dev == Second(old(dev), op)
      ensures op.PhyRead? || op.RomRead? ==> word == Result(old(dev))
    {
      var save, high, low := dev.index, 0, 0;
      Write(EPCR, 0);
      match op {
        case PhyRead(_) =>
          high := Read(EPDRH);
          low := Read(EPDRL);
          dev := dev.(index := save);
        case PhyWrite(_, _) =>
          dev := dev.(index := save);
        case RomRead(_) =>
          low := Read(EPDRL);
          high := Read(EPDRH);
        case RomWrite(_, _) =>
      }
      word := 256 * high + low;
    }
  }

  // ---------------------------------------------------------------- what the calls mean

  /** The words behind the interface, and one call on them at once */
  datatype Store = Store(phy: seq<nat>, rom: seq<nat>)

  function Perform(s: Store, op: Op): Store
    requires |s.phy| == 64 && |s.rom| == 64 && ValidOp(op)
  {
    match op
    case PhyWrite(reg, value) => s.(phy := s.phy[reg := value])
    case RomWrite(reg, value) => s.(rom := s.rom[reg := value])
    case _ => s
  }

  /** What a read call is to return */
  function Answer(s: Store, op: Op): nat
    requires |s.phy| == 64 && |s.rom| == 64 && ValidOp(op)
  {
    match op
    case PhyRead(reg) => s.phy[reg]
    case RomRead(reg) => s.rom[reg]
    case _ => op.value
  }

  function StoreOf(d: Device): Store {
    Store(d.phy, d.rom)
  }

  function CodeOf(op: Op): nat {
    match op
    case PhyRead(_) => PHY_READ
    case PhyWrite(_, _) => PHY_WRITE
    case RomRead(_) => ROM_READ
    case RomWrite(_, _) => ROM_WRITE
  }

  /** The chip has been told to carry out op. */
  ghost predicate Armed(d: Device, op: Op)
    requires ValidDevice(d)
  {
    d.pending && d.regs[EPCR] == CodeOf(op) && d.regs[EPAR] % 64 == op.reg
    && (op.PhyWrite? || op.RomWrite? ==> Result(d) == op.value)
  }

  lemma Split(value: nat)
    requires value < 65536
    ensures Word(value / 256 % 256, value % 256) == value && value / 256 < 256
  {
  }

  /** The first section arms the chip with its call and touches no stored word. */
  lemma FirstArms(d: Device, op: Op)
    requires ValidDevice(d) && ValidOp(op)
    ensures Armed(First(d, op), op) && StoreOf(First(d, op)) == StoreOf(d)
  {
    var r := First(d, op);
    assert r.regs[EPCR] == CodeOf(op) && r.regs[EPAR] % 64 == op.reg;
    if op.PhyWrite? || op.RomWrite? {
      Split(op.value);
      assert r.regs[EPDRL] == op.value % 256 && r.regs[EPDRH] == op.value / 256 % 256;
    }
  }

  /** The registers after a first section: the address with bit 6 for the PHY, the command, and the two bytes of a write */
  lemma FirstRegisters(d: Device, op: Op)
    requires ValidDevice(d) && ValidOp(op)
    ensures var r := First(d, op).regs;
            && r[0x0C] == (if op.PhyRead? || op.PhyWrite? then 0x40 + op.reg else op.reg)
            && r[0x0B] == (match op case PhyRead(_) => 0x0C case PhyWrite(_, _) => 0x0A
                                    case RomRead(_) => 0x04 case RomWrite(_, _) => 0x12)
            && (op.PhyWrite? || op.RomWrite? ==> 256 * r[0x0E] + r[0x0D] == op.value)
            && forall i :: 0 <= i < 256 && !(0x0B <= i <= 0x0E) ==> r[i] == d.regs[i]
  {
    FirstArms(d, op);
  }

  /** Both sections of a PHY call leave the index register as they found it; those of an EEPROM call do not. */
  lemma IndexKept(d: Device, op: Op)
    requires ValidDevice(d) && ValidOp(op)
    ensures op.PhyRead? || op.PhyWrite? ==> First(d, op).index == d.index == Second(d, op).index
    ensures op.RomRead? ==> First(d, op).index == 0x0B && Second(d, op).index == 0x0E
    ensures op.RomWrite? ==> First(d, op).index == 0x0B == Second(d, op).index
    ensures Second(d, op).regs == d.regs[0x0B := 0] && !Second(d, op).pending
  {
  }

  /** An armed chip carries out exactly its call, and leaves a read's answer in the data registers. */
  lemma ArmedPerforms(d: Device, op: Op)
    requires ValidDevice(d) && ValidOp(op) && Armed(d, op)
    ensures StoreOf(Execute(d)) == Perform(StoreOf(d), op) && !Execute(d).pending
    ensures Result(Execute(d)) == Answer(StoreOf(d), op)
  {
    match op
    case PhyRead(reg) => Split(d.phy[reg]);
    case RomRead(reg) => Split(d.rom[reg]);
    case PhyWrite(_, _) =>
    case RomWrite(_, _) =>
  }

  // ---------------------------------------------------------------- interleavings

  /** A thread outside, before the mutex, or between its two sections; `out` is what the chip's store held for its call. */
  datatype Phase = Idle | Wanting(op: Op) | Inside(op: Op, out: int)

  datatype Finished = Finished(op: Op, result: nat, expected: int)

  datatype World = World(dev: Device, mutex: int, threads: seq<Phase>, finished: seq<Finished>, store: Store)

  datatype Action =
    | Call(t: nat, op: Op)
    | Start(t: nat)                       // mutex_lock and the first section
    | Work                                // the chip carries out the command
    | Stop(t: nat)                        // the second section and mutex_unlock, once the chip is ready
    | Other(reg: nat, v: nat, at: nat)    // a register write in someone else's section, which leaves the index at `at`

  /** Interrupts, transmits and multicast updates leave the EEPROM and PHY registers alone. */
  predicate Elsewhere(reg: nat) {
    reg < 256 && reg != EPCR && reg != EPAR && reg != EPDRL && reg != EPDRH
  }

  predicate Enabled(w: World, a: Action) {
    match a
    case Call(t, op) => t < |w.threads| && w.threads[t].Idle? && ValidOp(op)
    case Start(t) => t < |w.threads| && w.threads[t].Wanting? && w.mutex == -1
    case Work => w.dev.pending && 0 <= w.mutex < |w.threads| && w.threads[w.mutex].Inside?
    case Stop(t) => t < |w.threads| && w.threads[t].Inside? && !w.dev.pending
    case Other(reg, _, _) => Elsewhere(reg)
  }

  /** The registers and words are of their sizes, and the calls address words there are. */
  ghost predicate WellTyped(w: World) {
    && ValidDevice(w.dev) && |w.store.phy| == 64 == |w.store.rom|
    && forall t :: 0 <= t < |w.threads| && !w.threads[t].Idle? ==> ValidOp(w.threads[t].op)
  }

  ghost function Next(w: World, a: Action): World
    requires Enabled(w, a) && WellTyped(w)
  {
    match a
    case Call(t, op) => w.(threads := w.threads[t := Wanting(op)])
    case Start(t) =>
      var op := w.threads[t].op;
      w.(dev := First(w.dev, op), mutex := t, threads := w.threads[t := Inside(op, -1)])
    case Work =>
      var op := w.threads[w.mutex].op;
      w.(dev := Execute(w.dev), store := Perform(w.store, op),
         threads := w.threads[w.mutex := Inside(op, Answer(w.store, op))])
    case Stop(t) =>
      var p := w.threads[t];
      w.(dev := Second(w.dev, p.op), mutex := -1, threads := w.threads[t := Idle],
         finished := w.finished + [Finished(p.op, Result(w.dev), p.out)])
    case Other(reg, v, at) => w.(dev := Iow(w.dev, reg, v).(index := at))
  }

  /** The chip holds what the calls performed so far have left, and the mutex's owner has it to itself. */
  ghost predicate Inv(w: World) {
    && WellTyped(w) && w.store == StoreOf(w.dev)
    && -1 <= w.mutex < |w.threads|
    && (forall t :: 0 <= t < |w.threads| ==> (w.threads[t].Inside? <==> t == w.mutex))
    && (w.mutex == -1 ==> !w.dev.pending)
    && (w.mutex >= 0 ==> Serving(w.dev, w.threads[w.mutex]))
    && (forall i :: 0 <= i < |w.finished| && (w.finished[i].op.PhyRead? || w.finished[i].op.RomRead?) ==>
          w.finished[i].result == w.finished[i].expected)
  }

  ghost predicate Serving(d: Device, p: Phase)
    requires ValidDevice(d)
  {
    && p.Inside? && ValidOp(p.op)
    && if d.pending then Armed(d, p.op) else p.out == Result(d) == Answer(StoreOf(d), p.op) && Applied(StoreOf(d), p.op)
  }

  /** A write call has left its word. */
  predicate Applied(s: Store, op: Op)
    requires |s.phy| == 64 && |s.rom| == 64 && ValidOp(op)
  {
    match op
    case PhyWrite(reg, value) => s.phy[reg] == value
    case RomWrite(reg, value) => s.rom[reg] == value
    case _ => true
  }

  lemma StartKeeps(w: World, t: nat)
    requires Inv(w) && Enabled(w, Start(t))
    ensures Inv(Next(w, Start(t)))
  {
    FirstArms(w.dev, w.threads[t].op);
  }

  lemma WorkKeeps(w: World)
    requires Inv(w) && Enabled(w, Work)
    ensures Inv(Next(w, Work))
  {
    ArmedPerforms(w.dev, w.threads[w.mutex].op);
  }

  lemma OtherKeeps(w: World, reg: nat, v: nat, at: nat)
    requires Inv(w) && Enabled(w, Other(reg, v, at))
    ensures Inv(Next(w, Other(reg, v, at)))
  {
    var d := Next(w, Other(reg, v, at)).dev;
    assert d.regs[EPCR] == w.dev.regs[EPCR] && d.regs[EPAR] == w.dev.regs[EPAR] && Result(d) == Result(w.dev);
  }

  /** Every step of every thread, of the chip and of the other sections keeps the invariant. */
  lemma StepKeeps(w: World, a: Action)
    requires Inv(w) && Enabled(w, a)
    ensures Inv(Next(w, a))
  {
    match a
    case Call(t, op) =>
    case Start(t) => StartKeeps(w, t);
    case Work => WorkKeeps(w);
    case Stop(t) =>
    case Other(reg, v, at) => OtherKeeps(w, reg, v, at);
  }

  /** One interleaving: each action is possible where it happens. */
  ghost predicate Run(w: World, acts: seq<Action>)
    decreases |acts|
  {
    acts == [] || (WellTyped(w) && Enabled(w, acts[0]) && Run(Next(w, acts[0]), acts[1..]))
  }

  ghost function After(w: World, acts: seq<Action>): World
    requires Run(w, acts)
    decreases |acts|
  {
    if acts == [] then w else After(Next(w, acts[0]), acts[1..])
  }

  ghost predicate Begins(w: World) {
    && ValidDevice(w.dev) && !w.dev.pending && w.store == StoreOf(w.dev) && w.mutex == -1 && w.finished == []
    && forall t :: 0 <= t < |w.threads| ==> w.threads[t].Idle?
  }

  lemma {:induction false} RunKeeps(w: World, acts: seq<Action>)
    requires Inv(w) && Run(w, acts)
    ensures Inv(After(w, acts))
    decreases |acts|
  {
    if acts != [] {
      StepKeeps(w, acts[0]);
      RunKeeps(Next(w, acts[0]), acts[1..]);
    }
  }

  /**
   In every interleaving, every finished read has returned the word its register held, as if all calls
   had been carried out one at a time, and the chip holds what those calls wrote.
   */
  lemma CallsAreAtomic(w: World, acts: seq<Action>)
    requires Begins(w) && Run(w, acts)
    ensures After(w, acts).store == StoreOf(After(w, acts).dev)
    ensures forall i :: 0 <= i < |After(w, acts).finished| ==>
              var f := After(w, acts).finished[i];
              f.op.PhyRead? || f.op.RomRead? ==> f.result == f.expected
  {
    RunKeeps(w, acts);
  }

  // ---------------------------------------------------------------- one EEPROM word among other calls

  /** If the call writes EEPROM word k, it writes v. */
  predicate Carries(op: Op, k: nat, v: nat) {
    op.RomWrite? && op.reg == k ==> op.value == v
  }

  ghost predicate CallsCarry(acts: seq<Action>, k: nat, v: nat) {
    forall i :: 0 <= i < |acts| && acts[i].Call? ==> Carries(acts[i].op, k, v)
  }

  ghost predicate ThreadsCarry(w: World, k: nat, v: nat) {
    forall t :: 0 <= t < |w.threads| && !w.threads[t].Idle? ==> Carries(w.threads[t].op, k, v)
  }

  /** Some write of word k is among the calls finished after the first n. */
  ghost predicate WriteFinished(w: World, n: nat, k: nat) {
    exists i :: n <= i < |w.finished| && w.finished[i].op.RomWrite? && w.finished[i].op.reg == k
  }

  /** The reads of word k finished after the first n returned v. */
  ghost predicate ReadsGave(w: World, n: nat, k: nat, v: nat) {
    forall i :: n <= i < |w.finished| && w.finished[i].op == RomRead(k) ==> w.finished[i].result == v
  }

  lemma StepLands(w: World, a: Action, n: nat, k: nat, v: nat)
    requires Inv(w) && Enabled(w, a) && k < 64 && ThreadsCarry(w, k, v) && (a.Call? ==> Carries(a.op, k, v))
    requires WriteFinished(w, n, k) ==> w.store.rom[k] == v
    ensures ThreadsCarry(Next(w, a), k, v) && (WriteFinished(Next(w, a), n, k) ==> Next(w, a).store.rom[k] == v)
  {
    var w' := Next(w, a);
    if a.Stop? && !WriteFinished(w, n, k) && WriteFinished(w', n, k) {
      var i :| n <= i < |w'.finished| && w'.finished[i].op.RomWrite? && w'.finished[i].op.reg == k;
      assert w'.finished[..|w.finished|] == w.finished;
      assert Serving(w.dev, w.threads[a.t]);
    } else if !a.Stop? {
      assert w'.finished == w.finished;
      assert WriteFinished(w', n, k) ==> WriteFinished(w, n, k);
    }
  }

  lemma StepReads(w: World, a: Action, n: nat, k: nat, v: nat)
    requires Inv(w) && Enabled(w, a) && k < 64 && ThreadsCarry(w, k, v) && (a.Call? ==> Carries(a.op, k, v))
    requires w.store.rom[k] == v && ReadsGave(w, n, k, v)
    ensures ThreadsCarry(Next(w, a), k, v) && Next(w, a).store.rom[k] == v && ReadsGave(Next(w, a), n, k, v)
  {
    var w' := Next(w, a);
    if a.Stop? {
      assert Serving(w.dev, w.threads[a.t]);
      forall i | n <= i < |w'.finished| && w'.finished[i].op == RomRead(k) ensures w'.finished[i].result == v {
        if i < |w.finished| {
          assert w'.finished[i] == w.finished[i];
        }
      }
    }
  }

  lemma {:induction false} WriteLands(w: World, acts: seq<Action>, n: nat, k: nat, v: nat)
    requires Inv(w) && Run(w, acts) && k < 64 && ThreadsCarry(w, k, v) && CallsCarry(acts, k, v)
    requires WriteFinished(w, n, k) ==> w.store.rom[k] == v
    ensures Inv(After(w, acts)) && ThreadsCarry(After(w, acts), k, v)
    ensures WriteFinished(After(w, acts), n, k) ==> After(w, acts).store.rom[k] == v
    decreases |acts|
  {
    if acts != [] {
      StepKeeps(w, acts[0]);
      StepLands(w, acts[0], n, k, v);
      WriteLands(Next(w, acts[0]), acts[1..], n, k, v);
    }
  }

  lemma {:induction false} ReadsGive(w: World, acts: seq<Action>, n: nat, k: nat, v: nat)
    requires Inv(w) && Run(w, acts) && k < 64 && ThreadsCarry(w, k, v) && CallsCarry(acts, k, v)
    requires w.store.rom[k] == v && ReadsGave(w, n, k, v)
    ensures ReadsGave(After(w, acts), n, k, v)
    decreases |acts|
  {
    if acts != [] {
      StepKeeps(w, acts[0]);
      StepReads(w, acts[0], n, k, v);
      ReadsGive(Next(w, acts[0]), acts[1..], n, k, v);
    }
  }

  /** Word k of a range of bytes that starts at `offset` */
  function RangeWord(offset: nat, data: seq<nat>, k: nat): nat
    requires offset <= 2 * k && 2 * k + 2 <= offset + |data|
  {
    Word(data[2 * k + 1 - offset], data[2 * k - offset])
  }

  /** The calls of the run write nothing else into the range. */
  ghost predicate RangeCarried(w: World, acts: seq<Action>, offset: nat, data: seq<nat>) {
    forall k :: 0 <= k < 64 && offset <= 2 * k && 2 * k + 2 <= offset + |data| ==>
      ThreadsCarry(w, k, RangeWord(offset, data, k)) && CallsCarry(acts, k, RangeWord(offset, data, k))
  }

  /**
   dm9000_set_eeprom and then dm9000_get_eeprom, word by word among everything else: `acts` is the time until
   every word of the range has been written, `more` the time after it. Every read of a word of the range that
   finishes then delivers the range's own two bytes, whatever else went on, unless another call wrote other
   bytes into the range.
   */
  lemma SetThenGetAmongOthers(w: World, acts: seq<Action>, more: seq<Action>, offset: nat, data: seq<nat>, k: nat)
    requires Inv(w) && Run(w, acts) && Run(After(w, acts), more)
    requires forall j :: 0 <= j < |data| ==> data[j] < 256
    requires RangeCarried(w, acts, offset, data) && RangeCarried(w, more, offset, data)
    requires k < 64 && offset <= 2 * k && 2 * k + 2 <= offset + |data| && WriteFinished(After(w, acts), |w.finished|, k)
    ensures var t := After(After(w, acts), more);
            forall i :: |After(w, acts).finished| <= i < |t.finished| && t.finished[i].op == RomRead(k) ==>
              t.finished[i].result % 256 == data[2 * k - offset] && t.finished[i].result / 256 == data[2 * k + 1 - offset]
  {
    var v, mid := RangeWord(offset, data, k), After(w, acts);
    assert ThreadsCarry(w, k, v) && CallsCarry(acts, k, v) && CallsCarry(more, k, v);
    WriteLands(w, acts, |w.finished|, k, v);
    ReadsGive(mid, more, |mid.finished|, k, v);
  }

  // ---------------------------------------------------------------- ranges of EEPROM bytes

  /** Byte j of the EEPROM, low byte first */
  function RomByte(rom: seq<nat>, j: nat): nat
    requires j / 2 < |rom|
  {
    if j % 2 == 0 then rom[j / 2] % 256 else rom[j / 2] / 256
  }

  /** The EEPROM holds these bytes from `offset` on. */
  ghost predicate Holds(rom: seq<nat>, offset: nat, data: seq<nat>) {
    |rom| == 64 && offset + |data| <= 128 && forall i :: 0 <= i < |data| ==> RomByte(rom, offset + i) == data[i]
  }

  /** Outside [from, to) the two EEPROMs hold the same bytes. */
  ghost predicate SameOutside(rom: seq<nat>, rom': seq<nat>, from: nat, to: nat) {
    |rom| == 64 == |rom'| && forall j :: 0 <= j < 128 && !(from <= j < to) ==> RomByte(rom, j) == RomByte(rom', j)
  }

  lemma WordBytes(rom: seq<nat>, k: nat, low: nat, high: nat)
    requires k < 64 == |rom| && low < 256 && high < 256
    ensures var rom' := rom[k := Word(high, low)];
            RomByte(rom', 2 * k) == low && RomByte(rom', 2 * k + 1) == high
            && forall j :: 0 <= j < 128 && j != 2 * k && j != 2 * k + 1 ==> RomByte(rom', j) == RomByte(rom, j)
  {
    var rom' := rom[k := Word(high, low)];
    assert (2 * k) / 2 == k && (2 * k + 1) / 2 == k && (2 * k + 1) % 2 == 1;
    forall j | 0 <= j < 128 && j != 2 * k && j != 2 * k + 1 ensures RomByte(rom', j) == RomByte(rom, j) {
      assert j / 2 != k;
    }
  }

  datatype Code = Done | EInval | ENoEnt

  const MAGIC := 0x444D394B      // DM_EEPROM_MAGIC

  class Eeprom {
    const port: Port
    const present: bool           // DM9000_PLATF_NO_EEPROM is not set

    constructor (port: Port, present: bool)
      ensures this.port == port && this.present == present
    {
      this.port, this.present := port, present;
    }

    /** The wait between the two sections: the chip becomes ready. */
    method Wait()
      requires ValidDevice(port.dev)
      modifies port
      ensures port.dev == if old(port.dev).pending then Execute(old(port.dev)) else old(port.dev)
    {
      if port.dev.pending {
        port.dev := Execute(port.dev);
      }
    }

    /** dm9000_read_eeprom */
    method ReadWord(offset: nat) returns (low: nat, high: nat)
      requires ValidDevice(port.dev) && offset < 64
      modifies port
      ensures ValidDevice(port.dev) && port.dev.rom == old(port.dev.rom) && port.dev.phy == old(port.dev.phy)
      ensures !present ==> low == 0xff && high == 0xff
      ensures present ==> low == port.dev.rom[offset] % 256 && high == port.dev.rom[offset] / 256
    {
      if !present {
        return 0xff, 0xff;
      }
      ghost var op := RomRead(offset);
      FirstArms(port.dev, op);
      port.Begin(RomRead(offset));
      ArmedPerforms(port.dev, op);
      Wait();
      var word := port.End(RomRead(offset));
      low, high := word % 256, word / 256;
    }

    /** dm9000_write_eeprom */
    method WriteWord(offset: nat, low: nat, high: nat)
      requires ValidDevice(port.dev) && offset < 64 && low < 256 && high < 256
      modifies port
      ensures ValidDevice(port.dev) && port.dev.phy == old(port.dev.phy)
      ensures port.dev.rom == if present then old(port.dev.rom)[offset := Word(high, low)] else old(port.dev.rom)
    {
      if !present {
        return;
      }
      ghost var op := RomWrite(offset, Word(high, low));
      FirstArms(port.dev, op);
      port.Begin(RomWrite(offset, Word(high, low)));
      ArmedPerforms(port.dev, op);
      Wait();
      var _ := port.End(RomWrite(offset, Word(high, low)));
    }

    /** One turn of dm9000_set_eeprom's loop */
    method SetPair(offset: nat, i: nat, data: seq<nat>, ghost rom0: seq<nat>)
      requires ValidDevice(port.dev) && present && offset % 2 == 0 && i % 2 == 0 && i + 2 <= |data|
      requires offset + |data| <= 128 && forall k :: 0 <= k < |data| ==> data[k] < 256
      requires Holds(port.dev.rom, offset, data[..i]) && SameOutside(rom0, port.dev.rom, offset, offset + i)
      modifies port
      ensures ValidDevice(port.dev)
      ensures Holds(port.dev.rom, offset, data[..i + 2]) && SameOutside(rom0, port.dev.rom, offset, offset + i + 2)
    {
      ghost var rom, k := port.dev.rom, (offset + i) / 2;
      WordBytes(rom, k, data[i], data[i + 1]);
      assert 2 * k == offset + i;
      WriteWord((offset + i) / 2, data[i], data[i + 1]);
      ghost var part := data[..i + 2];
      forall x | 0 <= x < |part| ensures RomByte(port.dev.rom, offset + x) == part[x] {
        if x < i {
          assert RomByte(rom, offset + x) == data[..i][x];
        }
      }
    }

    /** dm9000_set_eeprom */
    method Set(offset: nat, data: seq<nat>, magic: nat) returns (ret: Code)
      requires ValidDevice(port.dev) && offset + |data| <= 128 && forall k :: 0 <= k < |data| ==> data[k] < 256
      modifies port
      ensures ValidDevice(port.dev)
      ensures ret == if |data| % 2 != 0 || offset % 2 != 0 then EInval else if !present then ENoEnt
                     else if magic != MAGIC then EInval else Done
      ensures ret.Done? ==> Holds(port.dev.rom, offset, data) && SameOutside(old(port.dev.rom), port.dev.rom, offset, offset + |data|)
      ensures !ret.Done? ==> port.dev == old(port.dev)
    {
      if |data| % 2 != 0 || offset % 2 != 0 {
        return EInval;
      }
      if !present {
        return ENoEnt;
      }
      if magic != MAGIC {
        return EInval;
      }
      var i := 0;
      while i < |data|
        invariant 0 <= i <= |data| && i % 2 == 0 && ValidDevice(port.dev)
        invariant Holds(port.dev.rom, offset, data[..i]) && SameOutside(old(port.dev.rom), port.dev.rom, offset, offset + i)
      {
        SetPair(offset, i, data, old(port.dev.rom));
        i := i + 2;
      }
      assert data[..i] == data;
      ret := Done;
    }

    /** dm9000_get_eeprom */
    method Get(offset: nat, len: nat) returns (ret: Code, data: seq<nat>)
      requires ValidDevice(port.dev) && offset + len <= 128
      modifies port
      ensures ValidDevice(port.dev) && port.dev.rom == old(port.dev.rom)
      ensures ret == if len % 2 != 0 || offset % 2 != 0 then EInval else if !present then ENoEnt else Done
      ensures ret.Done? ==> |data| == len && Holds(port.dev.rom, offset, data)
    {
      data := [];
      if len % 2 != 0 || offset % 2 != 0 {
        return EInval, data;
      }
      if !present {
        return ENoEnt, data;
      }
      var i := 0;
      while i < len
        invariant 0 <= i <= len && i % 2 == 0 && |data| == i && ValidDevice(port.dev)
        invariant port.dev.rom == old(port.dev.rom) && Holds(port.dev.rom, offset, data)
      {
        var low, high := ReadWord((offset + i) / 2);
        assert (offset + i) % 2 == 0 && (offset + i + 1) / 2 == (offset + i) / 2 && (offset + i + 1) % 2 == 1;
        data := data + [low, high];
        i := i + 2;
      }
      ret := Done;
    }

    /** What an accepted set wrote, a get of the same range reads. */
    method SetThenGet(offset: nat, data: seq<nat>) returns (ret: Code, back: seq<nat>)
      requires ValidDevice(port.dev) && present && offset % 2 == 0 && |data| % 2 == 0 && offset + |data| <= 128
      requires forall k :: 0 <= k < |data| ==> data[k] < 256
      modifies port
      ensures ret.Done? && back == data
    {
      ret := Set(offset, data, MAGIC);
      ret, back := Get(offset, |data|);
      SameBytes(port.dev.rom, offset, data, back);
    }
  }

  lemma SameBytes(rom: seq<nat>, offset: nat, a: seq<nat>, b: seq<nat>)
    requires |a| == |b| && Holds(rom, offset, a) && Holds(rom, offset, b)
    ensures a == b
  {
    forall i | 0 <= i < |a| ensures a[i] == b[i] {
      assert RomByte(rom, offset + i) == a[i];
    }
  }
}
