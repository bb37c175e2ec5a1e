/**
 The sleeping lock of the NAND core: chips that share a controller are taken by `nand_get_device` and
 given back by `nand_release_device`; each works in one section under the controller's spinlock.
 */
module NandLock {

  datatype ChipState = Ready | Busy | PmSuspended

  /** controller->active (-1 for none) and the state of every chip on the controller */
  datatype Bus = Bus(active: int, chips: seq<ChipState>)

  predicate ValidBus(b: Bus) {
    -1 <= b.active < |b.chips|
  }

  /** How the section of nand_get_device ends: the chip is taken, found suspended with the active one, or awaited. */
  datatype Outcome = Got | Shared | Sleeps

  function Claimed(b: Bus, chip: nat): Bus {
    if b.active == -1 then b.(active := chip) else b
  }

  /** What one pass of nand_get_device's section comes to */
  function SectionOutcome(b: Bus, chip: nat, want: ChipState): Outcome
    requires ValidBus(b) && chip < |b.chips|
  {
    var c := Claimed(b, chip);
    if c.active == chip && c.chips[chip].Ready? then Got
    else if want.PmSuspended? && c.chips[c.active].PmSuspended? then Shared
    else Sleeps
  }

  function SectionBus(b: Bus, chip: nat, want: ChipState): (r: Bus)
    requires ValidBus(b) && chip < |b.chips|
    ensures ValidBus(r) && |r.chips| == |b.chips|
  {
    var c := Claimed(b, chip);
    match SectionOutcome(b, chip, want)
    case Got => c.(chips := c.chips[chip := want])
    case Shared => c.(chips := c.chips[chip := PmSuspended])
    case Sleeps => c
  }

  function ReleasedBus(b: Bus, chip: nat): (r: Bus)
    requires chip < |b.chips|
    ensures ValidBus(r) && |r.chips| == |b.chips|
  {
    Bus(-1, b.chips[chip := Ready])
  }

  /** The controller and its chips, as the two sections update them */
  class Controller {
    var active: int
    var chips: seq<ChipState>

    ghost predicate Valid()
      reads this
    {
      ValidBus(Bus(active, chips))
    }

    constructor (n: nat)
      ensures Valid() && active == -1 && |chips| == n && forall i :: 0 <= i < n ==> chips[i].Ready?
    {
      active := -1;
      chips := AllReady(n);
    }

    /** The section of nand_get_device, from spin_lock to spin_unlock */
    method TryGet(chip: nat, want: ChipState) returns (r: Outcome)
      requires Valid() && chip < |chips|
      modifies this
      ensures Valid() && r == SectionOutcome(old(Bus(active, chips)), chip, want)
      ensures Bus(active, chips) == SectionBus(old(Bus(active, chips)), chip, want)
    {
      if active == -1 {
        active := chip;
      }
      if active == chip && chips[chip].Ready? {
        chips := chips[chip := want];
        return Got;
      }
      if want.PmSuspended? {
        if chips[active].PmSuspended? {
          chips := chips[chip := PmSuspended];
          return Shared;
        }
      }
      r := Sleeps;
    }

    /** The section of nand_release_device */
    method Release(chip: nat)
      requires Valid() && chip < |chips|
      modifies this
      ensures Valid() && Bus(active, chips) == ReleasedBus(old(Bus(active, chips)), chip)
    {
      active := -1;
      chips := chips[chip := Ready];
    }
  }

  function AllReady(n: nat): (r: seq<ChipState>)
    ensures |r| == n && forall i :: 0 <= i < n ==> r[i].Ready?
  {
    if n == 0 then [] else [Ready] + AllReady(n - 1)
  }

  // ---------------------------------------------------------------- threads

  /** Where a thread stands: outside, before the section, asleep on the queue, owning a chip, or about to release after nand_resume's test. */
  datatype Phase =
    | Idle
    | Wanting(chip: nat, want: ChipState)
    | Asleep(chip: nat, want: ChipState)
    | Owning(chip: nat, want: ChipState)
    | Resuming(chip: nat)

  datatype World = World(bus: Bus, threads: seq<Phase>)

  /** wake_up(): every sleeper runs again, from the start of the section. */
  function Woken(p: Phase): Phase {
    match p
    case Asleep(chip, want) => Wanting(chip, want)
    case _ => p
  }

  function WakeAll(threads: seq<Phase>): (r: seq<Phase>)
    ensures |r| == |threads|
  {
    if threads == [] then [] else [Woken(threads[0])] + WakeAll(threads[1..])
  }

  lemma {:induction false} WakeAllAt(threads: seq<Phase>, t: nat)
    requires t < |threads|
    ensures WakeAll(threads)[t] == Woken(threads[t])
  {
    if t > 0 {
      WakeAllAt(threads[1..], t - 1);
    }
  }

  datatype Action =
    | Ask(t: nat, chip: nat, want: ChipState)   // a call of nand_get_device begins
    | Enter(t: nat)                             // its section runs once
    | Leave(t: nat)                             // the section of nand_release_device runs
    | Test(t: nat)                              // nand_resume tests the chip's state

  ghost predicate ValidWorld(w: World) {
    && ValidBus(w.bus)
    && forall t :: 0 <= t < |w.threads| && !w.threads[t].Idle? ==> w.threads[t].chip < |w.bus.chips|
  }

  predicate Enabled(w: World, a: Action) {
    && a.t < |w.threads|
    && match a
       case Ask(t, chip, want) => w.threads[t].Idle? && chip < |w.bus.chips| && !want.Ready?
       case Enter(t) => w.threads[t].Wanting? && w.threads[t].chip < |w.bus.chips|
       case Leave(t) => (w.threads[t].Resuming? || (w.threads[t].Owning? && w.threads[t].want.Busy?))
                        && w.threads[t].chip < |w.bus.chips|
       case Test(t) => w.threads[t].Owning? && w.threads[t].want.PmSuspended? && w.threads[t].chip < |w.bus.chips|
  }

  function Next(w: World, a: Action): World
    requires ValidBus(w.bus) && Enabled(w, a)
  {
    var p := w.threads[a.t];
    match a
    case Ask(t, chip, want) => w.(threads := w.threads[t := Wanting(chip, want)])
    case Enter(t) =>
      World(SectionBus(w.bus, p.chip, p.want),
            w.threads[t := if SectionOutcome(w.bus, p.chip, p.want).Sleeps? then Asleep(p.chip, p.want)
                           else Owning(p.chip, p.want)])
    case Leave(t) => World(ReleasedBus(w.bus, p.chip), WakeAll(w.threads)[t := Idle])
    case Test(t) => w.(threads := w.threads[t := if w.bus.chips[p.chip].PmSuspended? then Resuming(p.chip) else Idle])
  }

  // ---------------------------------------------------------------- the invariant

  predicate Owns(p: Phase) {
    p.Owning? || p.Resuming?
  }

  /** The phase belongs to a suspend or a resume. */
  predicate Suspending(p: Phase) {
    p.Resuming? || ((p.Wanting? || p.Asleep? || p.Owning?) && p.want.PmSuspended?)
  }

  /** What the owner's chip is in */
  predicate StateFits(b: Bus, p: Phase) {
    Owns(p) ==> p.chip < |b.chips| && b.active == p.chip
                && b.chips[p.chip] == if p.Resuming? then PmSuspended else p.want
  }

  /**
   At most one chip is not ready, and it is the active one; it has exactly one owner; nobody sleeps
   while the controller is free.
   */
  ghost predicate Inv(w: World) {
    && ValidWorld(w)
    && (forall i :: 0 <= i < |w.bus.chips| ==> (!w.bus.chips[i].Ready? <==> w.bus.active == i))
    && (forall t :: 0 <= t < |w.threads| ==> StateFits(w.bus, w.threads[t]))
    && (forall t, u :: 0 <= t < u < |w.threads| ==> !(Owns(w.threads[t]) && Owns(w.threads[u])))
    && (w.bus.active != -1 ==> exists t :: 0 <= t < |w.threads| && Owns(w.threads[t]))
    && (w.bus.active == -1 ==> forall t :: 0 <= t < |w.threads| ==> !w.threads[t].Asleep?)
    && (forall t :: 0 <= t < |w.threads| && !w.threads[t].Idle? && !w.threads[t].Resuming? ==> !w.threads[t].want.Ready?)
  }

  ghost predicate Start(w: World) {
    && w.bus.active == -1
    && (forall i :: 0 <= i < |w.bus.chips| ==> w.bus.chips[i].Ready?)
    && (forall t :: 0 <= t < |w.threads| ==> w.threads[t].Idle?)
  }

  /** No chip but the active one is not ready, no two threads own a chip, and a free controller has no sleeper. */
  ghost predicate Safe(w: World) {
    && (forall i :: 0 <= i < |w.bus.chips| && !w.bus.chips[i].Ready? ==> w.bus.active == i)
    && (forall t, u :: 0 <= t < u < |w.threads| ==> !(Owns(w.threads[t]) && Owns(w.threads[u])))
    && (w.bus.active == -1 ==> forall t :: 0 <= t < |w.threads| ==> !w.threads[t].Asleep?)
  }

  /** The step is a suspend that finds the active chip suspended, and is let in beside it. */
  predicate Shares(w: World, a: Action)
    requires ValidBus(w.bus) && Enabled(w, a)
  {
    a.Enter? && SectionOutcome(w.bus, w.threads[a.t].chip, w.threads[a.t].want).Shared?
  }

  lemma EnterKeeps(w: World, t: nat)
    requires Inv(w) && Enabled(w, Enter(t)) && !Shares(w, Enter(t))
    ensures Inv(Next(w, Enter(t)))
  {
    var w', p := Next(w, Enter(t)), w.threads[t];
    if SectionOutcome(w.bus, p.chip, p.want).Sleeps? {
      assert w.bus.active != -1;
      var u :| 0 <= u < |w.threads| && Owns(w.threads[u]);
      assert Owns(w'.threads[u]);
    } else {
      assert w.bus.active == -1;
      forall u | 0 <= u < |w.threads| ensures !Owns(w.threads[u]) {
        assert StateFits(w.bus, w.threads[u]);
      }
      assert Owns(w'.threads[t]);
    }
  }

  lemma OneOwner(w: World, t: nat, u: nat)
    requires Inv(w) && t < |w.threads| && u < |w.threads| && t != u && Owns(w.threads[t])
    ensures !Owns(w.threads[u])
  {
  }

  lemma LeaveKeeps(w: World, t: nat)
    requires Inv(w) && Enabled(w, Leave(t))
    ensures Inv(Next(w, Leave(t)))
  {
    var w' := Next(w, Leave(t));
    assert StateFits(w.bus, w.threads[t]);
    forall u | 0 <= u < |w.threads| ensures w'.threads[u] == if u == t then Idle else Woken(w.threads[u]) {
      WakeAllAt(w.threads, u);
    }
    forall u | 0 <= u < |w.threads| ensures !Owns(w'.threads[u]) {
      if u != t {
        OneOwner(w, t, u);
      }
    }
  }

  lemma TestKeeps(w: World, t: nat)
    requires Inv(w) && Enabled(w, Test(t))
    ensures Inv(Next(w, Test(t)))
  {
    var w' := Next(w, Test(t));
    assert StateFits(w.bus, w.threads[t]);
    assert Owns(w'.threads[t]);
  }

  lemma AskKeeps(w: World, t: nat, chip: nat, want: ChipState)
    requires Inv(w) && Enabled(w, Ask(t, chip, want))
    ensures Inv(Next(w, Ask(t, chip, want)))
  {
    var w' := Next(w, Ask(t, chip, want));
    if w.bus.active != -1 {
      var u :| 0 <= u < |w.threads| && Owns(w.threads[u]);
      assert Owns(w'.threads[u]);
    }
  }

  /** Every step of every thread keeps the invariant, but for a suspend let in beside another. */
  lemma StepKeeps(w: World, a: Action)
    requires Inv(w) && Enabled(w, a) && !Shares(w, a)
    ensures Inv(Next(w, a))
  {
    match a
    case Ask(t, chip, want) => AskKeeps(w, t, chip, want);
    case Enter(t) => EnterKeeps(w, t);
    case Leave(t) => LeaveKeeps(w, t);
    case Test(t) => TestKeeps(w, t);
  }

  /** Such a suspend makes its thread an owner beside the one there is. */
  lemma SharingBreaks(w: World, t: nat)
    requires Inv(w) && Enabled(w, Enter(t)) && Shares(w, Enter(t))
    ensures !Safe(Next(w, Enter(t)))
  {
    var w' := Next(w, Enter(t));
    var u :| 0 <= u < |w.threads| && Owns(w.threads[u]);
    assert Owns(w'.threads[t]) && Owns(w'.threads[u]) && t != u;
  }

  /** A step from a state with the invariant is safe exactly when it is not a suspend let in beside another. */
  lemma StepExact(w: World, a: Action)
    requires Inv(w) && Enabled(w, a)
    ensures Safe(Next(w, a)) <==> !Shares(w, a)
  {
    if Shares(w, a) {
      SharingBreaks(w, a.t);
    } else {
      StepKeeps(w, a);
    }
  }

  /** One interleaving: each action is possible where it happens. */
  ghost predicate Run(w: World, acts: seq<Action>)
    decreases |acts|
  {
    acts == [] || (ValidBus(w.bus) && Enabled(w, acts[0]) && Run(Next(w, acts[0]), acts[1..]))
  }

  ghost function After(w: World, acts: seq<Action>): World
    requires Run(w, acts)
    decreases |acts|
  {
    if acts == [] then w else After(Next(w, acts[0]), acts[1..])
  }

  /** Every state of the run is safe, the first and the last included. */
  ghost predicate SafeThroughout(w: World, acts: seq<Action>)
    requires Run(w, acts)
    decreases |acts|
  {
    Safe(w) && (acts == [] || SafeThroughout(Next(w, acts[0]), acts[1..]))
  }

  /** No suspend of the run is let in beside another. */
  ghost predicate NeverShares(w: World, acts: seq<Action>)
    requires Run(w, acts)
    decreases |acts|
  {
    acts == [] || (!Shares(w, acts[0]) && NeverShares(Next(w, acts[0]), acts[1..]))
  }

  lemma {:induction false} RunExactFrom(w: World, acts: seq<Action>)
    requires Inv(w) && Run(w, acts)
    ensures SafeThroughout(w, acts) <==> NeverShares(w, acts)
    decreases |acts|
  {
    if acts != [] {
      var w' := Next(w, acts[0]);
      StepExact(w, acts[0]);
      if Shares(w, acts[0]) {
        assert !Safe(w') && !SafeThroughout(w', acts[1..]);
      } else {
        StepKeeps(w, acts[0]);
        RunExactFrom(w', acts[1..]);
      }
    }
  }

  /**
   The lock is safe and loses no wake-up throughout an interleaving of any threads over any chips, exactly when
   no suspend takes the branch that lets it in beside a suspended chip.
   */
  lemma RunExact(w: World, acts: seq<Action>)
    requires Start(w) && Run(w, acts)
    ensures SafeThroughout(w, acts) <==> NeverShares(w, acts)
  {
    RunExactFrom(w, acts);
  }

  lemma {:induction false} SafeAtEnd(w: World, acts: seq<Action>)
    requires Run(w, acts) && SafeThroughout(w, acts)
    ensures Safe(After(w, acts))
    decreases |acts|
  {
    if acts != [] {
      SafeAtEnd(Next(w, acts[0]), acts[1..]);
    }
  }

  // ---------------------------------------------------------------- one suspending thread

  /** The step does not bring in a suspend from anyone but the agent. */
  predicate Disciplined(a: Action, agent: int) {
    a.Ask? && a.want.PmSuspended? ==> a.t == agent
  }

  /** Suspends and resumes are under way in thread `agent` alone (-1: in none). */
  ghost predicate Sole(w: World, agent: int) {
    forall t :: 0 <= t < |w.threads| && Suspending(w.threads[t]) ==> t == agent
  }

  lemma SoleKept(w: World, a: Action, agent: int)
    requires ValidBus(w.bus) && Enabled(w, a) && Disciplined(a, agent) && Sole(w, agent)
    ensures Sole(Next(w, a), agent)
  {
    var w' := Next(w, a);
    forall t | 0 <= t < |w'.threads| && Suspending(w'.threads[t]) ensures t == agent {
      if a.Leave? && t != a.t {
        WakeAllAt(w.threads, t);
      }
      assert t != a.t ==> Suspending(w.threads[t]);
    }
  }

  /** Then nobody finds the active chip suspended by another. */
  lemma NeverShared(w: World, a: Action, agent: int)
    requires Inv(w) && Sole(w, agent) && Enabled(w, a)
    ensures !Shares(w, a)
  {
    if a.Enter? && w.bus.active != -1 {
      var u :| 0 <= u < |w.threads| && Owns(w.threads[u]);
      assert StateFits(w.bus, w.threads[u]);
    }
  }

  lemma {:induction false} SoleNeverShares(w: World, acts: seq<Action>, agent: int)
    requires Inv(w) && Sole(w, agent) && Run(w, acts) && forall i :: 0 <= i < |acts| ==> Disciplined(acts[i], agent)
    ensures NeverShares(w, acts)
    decreases |acts|
  {
    if acts != [] {
      NeverShared(w, acts[0], agent);
      StepKeeps(w, acts[0]);
      SoleKept(w, acts[0], agent);
      SoleNeverShares(Next(w, acts[0]), acts[1..], agent);
    }
  }

  /**
   In every interleaving over any number of chips whose suspends come from a single thread, or from none, the lock
   is safe throughout and no wake-up is lost.
   */
  lemma LockIsSafe(w: World, acts: seq<Action>, agent: int)
    requires Start(w) && Run(w, acts)
    requires forall i :: 0 <= i < |acts| ==> Disciplined(acts[i], agent)
    ensures SafeThroughout(w, acts) && Safe(After(w, acts))
  {
    SoleNeverShares(w, acts, agent);
    RunExact(w, acts);
    SafeAtEnd(w, acts);
  }

  // ---------------------------------------------------------------- two suspending threads

  /** Two chips and four threads */
  function Four(active: int, a: ChipState, b: ChipState, p: Phase, q: Phase, r: Phase, s: Phase): World {
    World(Bus(active, [a, b]), [p, q, r, s])
  }

  /** Two actions in a row */
  ghost predicate Two(w: World, a: Action, b: Action, w': World) {
    && ValidBus(w.bus) && Enabled(w, a)
    && ValidBus(Next(w, a).bus) && Enabled(Next(w, a), b) && Next(Next(w, a), b) == w'
  }

  lemma RunTwo(w: World, a: Action, b: Action, w': World, rest: seq<Action>)
    requires Two(w, a, b, w') && Run(w', rest)
    ensures Run(w, [a, b] + rest) && After(w, [a, b] + rest) == After(w', rest)
  {
    var acts := [a, b] + rest;
    assert acts[1..] == [b] + rest && acts[1..][1..] == rest;
    assert Run(Next(w, a), [b] + rest);
  }

  /** A thread asks for a chip that is free, on a controller that is free, and gets it. */
  lemma TakesFree(w: World, t: nat, chip: nat, want: ChipState)
    requires ValidBus(w.bus) && Enabled(w, Ask(t, chip, want)) && w.bus.active == -1 && w.bus.chips[chip].Ready?
    ensures Two(w, Ask(t, chip, want), Enter(t),
                World(Bus(chip, w.bus.chips[chip := want]), w.threads[t := Owning(chip, want)]))
  {
    assert w.threads[t := Wanting(chip, want)][t := Owning(chip, want)] == w.threads[t := Owning(chip, want)];
  }

  /** A suspend of any chip, while the active one is suspended, succeeds at once. */
  lemma SharesSuspension(w: World, t: nat, chip: nat)
    requires ValidBus(w.bus) && Enabled(w, Ask(t, chip, PmSuspended))
    requires w.bus.active != -1 && w.bus.chips[w.bus.active].PmSuspended?
    ensures Two(w, Ask(t, chip, PmSuspended), Enter(t),
                World(Bus(w.bus.active, w.bus.chips[chip := PmSuspended]), w.threads[t := Owning(chip, PmSuspended)]))
  {
    assert w.threads[t := Wanting(chip, PmSuspended)][t := Owning(chip, PmSuspended)] ==
           w.threads[t := Owning(chip, PmSuspended)];
  }

  /** A resume of a suspended chip frees the controller, whoever is active. */
  lemma ResumeFrees(w: World, t: nat)
    requires ValidBus(w.bus) && Enabled(w, Test(t)) && w.bus.chips[w.threads[t].chip].PmSuspended?
    requires forall u :: 0 <= u < |w.threads| ==> !w.threads[u].Asleep?
    ensures Two(w, Test(t), Leave(t),
                World(Bus(-1, w.bus.chips[w.threads[t].chip := Ready]), w.threads[t := Idle]))
  {
    var resuming := w.threads[t := Resuming(w.threads[t].chip)];
    NobodyToWake(resuming);
    assert resuming[t := Idle] == w.threads[t := Idle];
  }

  lemma NobodyToWake(threads: seq<Phase>)
    requires forall t :: 0 <= t < |threads| ==> !threads[t].Asleep?
    ensures WakeAll(threads) == threads
  {
    forall t | 0 <= t < |threads| ensures WakeAll(threads)[t] == threads[t] {
      WakeAllAt(threads, t);
    }
  }

  /** The end of the run, from the second resume on: the first chip is busy, and the second is taken too. */
  function Ending(): seq<Action> {
    [Test(1), Leave(1)] + ([Ask(3, 1, Busy), Enter(3)] + [])
  }

  /** The middle of the run: the first chip is resumed and taken. */
  function Middle(): seq<Action> {
    [Test(0), Leave(0)] + ([Ask(2, 0, Busy), Enter(2)] + Ending())
  }

  /** The run in which two threads come to drive two chips over one controller */
  function Collision(): seq<Action> {
    [Ask(0, 0, PmSuspended), Enter(0)] + ([Ask(1, 1, PmSuspended), Enter(1)] + Middle())
  }

  function Collided(): World {
    Four(1, Busy, Busy, Idle, Idle, Owning(0, Busy), Owning(1, Busy))
  }

  lemma EndingRuns(w: World)
    requires w == Four(0, Busy, PmSuspended, Idle, Owning(1, PmSuspended), Owning(0, Busy), Idle)
    ensures Run(w, Ending()) && After(w, Ending()) == Collided()
  {
    var w' := Four(-1, Busy, Ready, Idle, Idle, Owning(0, Busy), Idle);
    ResumeFrees(w, 1);
    assert Two(w, Test(1), Leave(1), w');
    TakesFree(w', 3, 1, Busy);
    assert Two(w', Ask(3, 1, Busy), Enter(3), Collided());
    RunTwo(w', Ask(3, 1, Busy), Enter(3), Collided(), []);
    RunTwo(w, Test(1), Leave(1), w', [Ask(3, 1, Busy), Enter(3)] + []);
  }

  lemma MiddleRuns(w: World)
    requires w == Four(0, PmSuspended, PmSuspended, Owning(0, PmSuspended), Owning(1, PmSuspended), Idle, Idle)
    ensures Run(w, Middle()) && After(w, Middle()) == Collided()
  {
    var w' := Four(-1, Ready, PmSuspended, Idle, Owning(1, PmSuspended), Idle, Idle);
    var w'' := Four(0, Busy, PmSuspended, Idle, Owning(1, PmSuspended), Owning(0, Busy), Idle);
    ResumeFrees(w, 0);
    assert Two(w, Test(0), Leave(0), w');
    TakesFree(w', 2, 0, Busy);
    assert Two(w', Ask(2, 0, Busy), Enter(2), w'');
    EndingRuns(w'');
    RunTwo(w', Ask(2, 0, Busy), Enter(2), w'', Ending());
    RunTwo(w, Test(0), Leave(0), w', [Ask(2, 0, Busy), Enter(2)] + Ending());
  }

  lemma SecondSuspends(w: World)
    requires w == Four(0, PmSuspended, Ready, Owning(0, PmSuspended), Idle, Idle, Idle)
    ensures Run(w, [Ask(1, 1, PmSuspended), Enter(1)] + Middle())
    ensures After(w, [Ask(1, 1, PmSuspended), Enter(1)] + Middle()) == Collided()
  {
    var w' := Four(0, PmSuspended, PmSuspended, Owning(0, PmSuspended), Owning(1, PmSuspended), Idle, Idle);
    SharesSuspension(w, 1, 1);
    assert Two(w, Ask(1, 1, PmSuspended), Enter(1), w');
    MiddleRuns(w');
    RunTwo(w, Ask(1, 1, PmSuspended), Enter(1), w', Middle());
  }

  /**
   With two chips on one controller the second suspender shares the suspension, the first resume frees
   the controller, and the second resume frees it again while another thread is at work.
   */
  lemma TwoChipsCollide(w: World)
    requires w == Four(-1, Ready, Ready, Idle, Idle, Idle, Idle)
    ensures Start(w) && Run(w, Collision()) && After(w, Collision()) == Collided() && !Safe(Collided())
  {
    var w' := Four(0, PmSuspended, Ready, Owning(0, PmSuspended), Idle, Idle, Idle);
    TakesFree(w, 0, 0, PmSuspended);
    assert Two(w, Ask(0, 0, PmSuspended), Enter(0), w');
    SecondSuspends(w');
    RunTwo(w, Ask(0, 0, PmSuspended), Enter(0), w', [Ask(1, 1, PmSuspended), Enter(1)] + Middle());
    assert !Collided().bus.chips[0].Ready? && Collided().bus.active == 1;
  }

  // ---------------------------------------------------------------- one chip suspended twice

  /** The end of the second run: the late resume of the first chip frees the controller while the second is busy. */
  function LateEnding(): seq<Action> {
    [Enter(2), Leave(1)] + ([Ask(3, 0, Busy), Enter(3)] + [])
  }

  function LateMiddle(): seq<Action> {
    [Test(0), Test(1)] + ([Leave(0), Ask(2, 1, Busy)] + LateEnding())
  }

  function LateCollision(): seq<Action> {
    [Ask(0, 0, PmSuspended), Enter(0)] + ([Ask(1, 0, PmSuspended), Enter(1)] + LateMiddle())
  }

  function LateCollided(): World {
    Four(0, Busy, Busy, Idle, Idle, Owning(1, Busy), Owning(0, Busy))
  }

  lemma LateEndingRuns(w: World)
    requires w == Four(-1, Ready, Ready, Idle, Resuming(0), Wanting(1, Busy), Idle)
    ensures Run(w, LateEnding()) && After(w, LateEnding()) == LateCollided()
  {
    var w' := Four(-1, Ready, Busy, Idle, Idle, Owning(1, Busy), Idle);
    var taken := Four(1, Ready, Busy, Idle, Resuming(0), Owning(1, Busy), Idle);
    assert Next(w, Enter(2)) == taken;
    NobodyToWake(taken.threads);
    assert Two(w, Enter(2), Leave(1), w');
    TakesFree(w', 3, 0, Busy);
    assert Two(w', Ask(3, 0, Busy), Enter(3), LateCollided());
    RunTwo(w', Ask(3, 0, Busy), Enter(3), LateCollided(), []);
    RunTwo(w, Enter(2), Leave(1), w', [Ask(3, 0, Busy), Enter(3)] + []);
  }

  lemma LateMiddleRuns(w: World)
    requires w == Four(0, PmSuspended, Ready, Owning(0, PmSuspended), Owning(0, PmSuspended), Idle, Idle)
    ensures Run(w, LateMiddle()) && After(w, LateMiddle()) == LateCollided()
  {
    var w' := Four(0, PmSuspended, Ready, Resuming(0), Resuming(0), Idle, Idle);
    var w'' := Four(-1, Ready, Ready, Idle, Resuming(0), Wanting(1, Busy), Idle);
    assert Two(w, Test(0), Test(1), w');
    NobodyToWake(w'.threads);
    assert Two(w', Leave(0), Ask(2, 1, Busy), w'');
    LateEndingRuns(w'');
    RunTwo(w', Leave(0), Ask(2, 1, Busy), w'', LateEnding());
    RunTwo(w, Test(0), Test(1), w', [Leave(0), Ask(2, 1, Busy)] + LateEnding());
  }

  lemma SuspendsAgain(w: World)
    requires w == Four(0, PmSuspended, Ready, Owning(0, PmSuspended), Idle, Idle, Idle)
    ensures Run(w, [Ask(1, 0, PmSuspended), Enter(1)] + LateMiddle())
    ensures After(w, [Ask(1, 0, PmSuspended), Enter(1)] + LateMiddle()) == LateCollided()
  {
    var w' := Four(0, PmSuspended, Ready, Owning(0, PmSuspended), Owning(0, PmSuspended), Idle, Idle);
    SharesSuspension(w, 1, 0);
    assert Two(w, Ask(1, 0, PmSuspended), Enter(1), w');
    LateMiddleRuns(w');
    RunTwo(w, Ask(1, 0, PmSuspended), Enter(1), w', LateMiddle());
  }

  /**
   Two suspends of one chip share it, both resumes pass their test, and the later release frees the controller
   while another thread drives the other chip: two chips are in use at once.
   */
  lemma OneChipCollides(w: World)
    requires w == Four(-1, Ready, Ready, Idle, Idle, Idle, Idle)
    ensures Start(w) && Run(w, LateCollision()) && After(w, LateCollision()) == LateCollided() && !Safe(LateCollided())
  {
    var w' := Four(0, PmSuspended, Ready, Owning(0, PmSuspended), Idle, Idle, Idle);
    TakesFree(w, 0, 0, PmSuspended);
    assert Two(w, Ask(0, 0, PmSuspended), Enter(0), w');
    SuspendsAgain(w');
    RunTwo(w, Ask(0, 0, PmSuspended), Enter(0), w', [Ask(1, 0, PmSuspended), Enter(1)] + LateMiddle());
    assert !LateCollided().bus.chips[1].Ready? && LateCollided().bus.active == 0;
  }

  // ---------------------------------------------------------------- one resume after the other

  function TwoResumes(): seq<Action> {
    [Ask(0, 0, PmSuspended), Enter(0)] + ([Ask(1, 0, PmSuspended), Enter(1)] + ([Test(0), Leave(0)] + [Test(1)]))
  }

  /** Two suspends of one chip and then their resumes one after the other: the second finds the chip ready and leaves it alone. */
  lemma SecondResumeIgnored(w: World)
    requires w == Four(-1, Ready, Ready, Idle, Idle, Idle, Idle)
    ensures Run(w, TwoResumes()) && After(w, TwoResumes()) == w
  {
    var w1 := Four(0, PmSuspended, Ready, Owning(0, PmSuspended), Idle, Idle, Idle);
    var w2 := Four(0, PmSuspended, Ready, Owning(0, PmSuspended), Owning(0, PmSuspended), Idle, Idle);
    var w3 := Four(-1, Ready, Ready, Idle, Owning(0, PmSuspended), Idle, Idle);
    LastResume(w3);
    ResumeFrees(w2, 0);
    assert Two(w2, Test(0), Leave(0), w3);
    RunTwo(w2, Test(0), Leave(0), w3, [Test(1)]);
    SharesSuspension(w1, 1, 0);
    assert Two(w1, Ask(1, 0, PmSuspended), Enter(1), w2);
    RunTwo(w1, Ask(1, 0, PmSuspended), Enter(1), w2, [Test(0), Leave(0)] + [Test(1)]);
    TakesFree(w, 0, 0, PmSuspended);
    assert Two(w, Ask(0, 0, PmSuspended), Enter(0), w1);
    RunTwo(w, Ask(0, 0, PmSuspended), Enter(0), w1, [Ask(1, 0, PmSuspended), Enter(1)] + ([Test(0), Leave(0)] + [Test(1)]));
  }

  lemma LastResume(w: World)
    requires w == Four(-1, Ready, Ready, Idle, Owning(0, PmSuspended), Idle, Idle)
    ensures Run(w, [Test(1)]) && After(w, [Test(1)]) == Four(-1, Ready, Ready, Idle, Idle, Idle, Idle)
  {
    var w' := Next(w, Test(1));
    assert w' == Four(-1, Ready, Ready, Idle, Idle, Idle, Idle);
    assert [Test(1)][1..] == [] && Run(w', []) && After(w', []) == w';
  }
}
