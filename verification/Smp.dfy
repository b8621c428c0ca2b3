/**
 Multi-core bring-up on the TX1 as a state machine of atomic steps
 (src/plat/tx1/smp.c, src/arch-arm/armv/armv8-a/64/smp.c, src/arch-arm/smp_boot.c).
 The boot core and the secondaries share a one-word mailbox, the array core_up
 and the lock non_boot_lock.
 */
module Smp {
  import opened Bytes

  const STACK_SIZE: nat := 4096

  /** The number of cores to run, the number there are (MAX_CORES, 4 on the TX1) and the address of core_stacks. */
  datatype Config = Config(nodes: nat, maxCores: nat, stacks: nat) {
    predicate Valid() {
      nodes >= 1 && maxCores >= 1 && stacks + nodes * STACK_SIZE <= U64_MOD
    }

    /** The address of core_stacks[i][0]. */
    function Stack(i: nat): nat {
      stacks + i * STACK_SIZE
    }

    /** The logic id that core_entry derives from a stack address. */
    function IdOf(sp: nat): int {
      (sp - stacks) % U64_MOD / STACK_SIZE
    }
  }

  /** Address a is on the stack of core i, which grows down from its address. */
  predicate OnStack(c: Config, i: nat, a: nat) {
    c.Stack(i) - STACK_SIZE <= a < c.Stack(i)
  }

  /** The stacks of the secondaries are aligned, lie in core_stacks and have no byte in common. */
  lemma StacksAreApart(c: Config, i: nat, j: nat, a: nat)
    requires c.Valid() && c.stacks % 0x1000 == 0 && 1 <= i < c.nodes && 1 <= j < c.nodes
    ensures c.Stack(i) % 16 == 0 && c.Stack(i) == c.stacks + 4096 * i
    ensures OnStack(c, i, a) ==> c.stacks <= a < c.stacks + 4096 * c.nodes
    ensures i != j ==> !(OnStack(c, i, a) && OnStack(c, j, a))
  {
  }

  /** Where the boot core is: in init_cpus, in smp_boot after it, or past both. */
  datatype Boot =
    | Check              // nodes > maxCores?
    | Store(i: nat)      // about to put the stack address of core i in the mailbox
    | PowerOn(i: nat)    // about to call psci_cpu_on for core i
    | Spin(i: nat)       // polling core_up[i]
    | SetId              // about to set its own id
    | Unlock             // about to set non_boot_lock
    | Running
    | Aborted(i: nat)    // printed a message about core i

  /** Where a secondary is. */
  datatype Core =
    | Off
    | Started            // in core_entry_head, about to read the mailbox
    | HaveSp(sp: nat)    // in core_entry, about to set its id register
    | HaveId(id: int)    // about to set core_up[id]
    | Waiting            // polling non_boot_lock
    | Left               // past the lock, on the way to the kernel

  datatype State = State(boot: Boot, mailbox: nat, coreUp: seq<int>, lock: int, cores: seq<Core>, ids: seq<int>)

  /** Turn of the boot core (psci_cpu_on, if called, succeeds or fails) or of secondary i. */
  datatype Turn = BootTurn(psciSuccess: bool) | CoreTurn(i: nat)

  /** Before main calls smp_boot: flags and lock are zero, all secondaries are off. */
  predicate Initial(c: Config, s: State) {
    && s.boot == Check && s.lock == 0
    && |s.coreUp| == |s.cores| == |s.ids| == c.nodes
    && forall i :: 0 <= i < c.nodes ==> s.coreUp[i] == 0 && s.cores[i] == Off
  }

  predicate Shaped(c: Config, s: State) {
    c.Valid() && |s.coreUp| == |s.cores| == |s.ids| == c.nodes
    && (s.boot.Store? || s.boot.PowerOn? || s.boot.Spin? || s.boot.Aborted? ==> 1 <= s.boot.i < c.nodes)
  }

  function BootStep(c: Config, s: State, psciSuccess: bool): State
    requires Shaped(c, s)
  {
    match s.boot
    case Check =>
      s.(boot := if c.nodes > c.maxCores then Aborted(1) else if 1 < c.nodes then Store(1) else SetId)
    case Store(i) => s.(mailbox := c.Stack(i), boot := PowerOn(i))
    case PowerOn(i) =>
      if psciSuccess then s.(cores := s.cores[i := Started], boot := Spin(i)) else s.(boot := Aborted(i))
    case Spin(i) =>
      if s.coreUp[i] == i then s.(boot := if i + 1 < c.nodes then Store(i + 1) else SetId) else s
    case SetId => s.(ids := s.ids[0 := 0], boot := Unlock)
    case Unlock => s.(lock := 1, boot := Running)
    case Running => s
    case Aborted(_) => s
  }

  function CoreStep(c: Config, s: State, i: nat): State
    requires Shaped(c, s) && i < c.nodes
  {
    match s.cores[i]
    case Off => s
    case Started => s.(cores := s.cores[i := HaveSp(s.mailbox)])
    case HaveSp(sp) => s.(ids := s.ids[i := c.IdOf(sp)], cores := s.cores[i := HaveId(c.IdOf(sp))])
    case HaveId(id) =>
      s.(coreUp := if 0 <= id < c.nodes then s.coreUp[id := id] else s.coreUp, cores := s.cores[i := Waiting])
    case Waiting => if s.lock != 0 then s.(cores := s.cores[i := Left]) else s
    case Left => s
  }

  function Step(c: Config, s: State, t: Turn): (r: State)
    requires Shaped(c, s)
    ensures Shaped(c, r)
  {
    match t
    case BootTurn(ok) => BootStep(c, s, ok)
    case CoreTurn(i) => if i < c.nodes then CoreStep(c, s, i) else s
  }

  /** The state after a schedule of turns. */
  function Run(c: Config, s: State, turns: seq<Turn>): (r: State)
    requires Shaped(c, s)
    ensures Shaped(c, r)
  {
    if turns == [] then s else Step(c, Run(c, s, turns[..|turns| - 1]), turns[|turns| - 1])
  }

  // ---------- The invariant ----------

  /** Core i has announced itself under its own number, and waits until the lock is released. */
  predicate Up(s: State, i: nat)
    requires i < |s.cores| == |s.coreUp| == |s.ids|
  {
    s.coreUp[i] == i && s.ids[i] == i && (s.cores[i] == Waiting || (s.cores[i] == Left && s.boot == Running))
  }

  predicate Down(s: State, i: nat)
    requires i < |s.cores| == |s.coreUp|
  {
    s.coreUp[i] == 0 && s.cores[i] == Off
  }

  /** Core i is powered on but not up yet: the mailbox is still meant for it until it has read it. */
  predicate Coming(c: Config, s: State, i: nat)
    requires i < |s.cores| == |s.coreUp| == |s.ids|
  {
    s.coreUp[i] == 0 &&
    match s.cores[i]
    case Started => s.mailbox == c.Stack(i)
    case HaveSp(sp) => sp == c.Stack(i)
    case HaveId(id) => id == i && s.ids[i] == i
    case _ => false
  }

  /** The core that init_cpus is dealing with; all below it are up, all above it are off. */
  function Current(c: Config, s: State): nat {
    match s.boot
    case Check => 1
    case Store(i) => i
    case PowerOn(i) => i
    case Spin(i) => i
    case Aborted(i) => i
    case SetId => c.nodes
    case Unlock => c.nodes
    case Running => c.nodes
  }

  predicate CoreInv(c: Config, s: State, i: nat)
    requires Shaped(c, s) && i < c.nodes
  {
    if i < Current(c, s) then Up(s, i)
    else if i == Current(c, s) && s.boot.Spin? then Up(s, i) || Coming(c, s, i)
    else Down(s, i)
  }

  ghost predicate Inv(c: Config, s: State) {
    && Shaped(c, s)
    && s.lock == (if s.boot == Running then 1 else 0)
    && s.cores[0] == Off
    && (s.boot.PowerOn? ==> s.mailbox == c.Stack(s.boot.i))
    && (s.boot == Unlock || s.boot == Running ==> s.ids[0] == 0)
    && forall i: nat :: 1 <= i < c.nodes ==> CoreInv(c, s, i)
  }

  lemma StackId(c: Config, i: nat)
    requires c.Valid() && i < c.nodes
    ensures c.IdOf(c.Stack(i)) == i
  {
  }

  lemma BootStepInv(c: Config, s: State, ok: bool)
    requires Inv(c, s)
    ensures Inv(c, BootStep(c, s, ok))
  {
    var r := BootStep(c, s, ok);
    forall i: nat | 1 <= i < c.nodes
      ensures CoreInv(c, r, i)
    {
      assert CoreInv(c, s, i);
    }
  }

  lemma CoreStepInv(c: Config, s: State, k: nat)
    requires Inv(c, s) && k < c.nodes
    ensures Inv(c, CoreStep(c, s, k))
  {
    StackId(c, k);
    var r := CoreStep(c, s, k);
    if k > 0 {
      assert CoreInv(c, s, k);
      forall i: nat | 1 <= i < c.nodes
        ensures CoreInv(c, r, i)
      {
        assert CoreInv(c, s, i);
      }
    }
  }

  lemma StepInv(c: Config, s: State, t: Turn)
    requires Inv(c, s)
    ensures Inv(c, Step(c, s, t))
  {
    match t
    case BootTurn(ok) => BootStepInv(c, s, ok);
    case CoreTurn(i) => if i < c.nodes { CoreStepInv(c, s, i); }
  }

  lemma InitialInv(c: Config, s: State)
    requires c.Valid() && Initial(c, s)
    ensures Inv(c, s)
  {
    forall i: nat | 1 <= i < c.nodes
      ensures CoreInv(c, s, i)
    {
      assert s.coreUp[i] == 0;
    }
  }

  lemma {:induction false} RunKeepsInv(c: Config, s: State, turns: seq<Turn>)
    requires Inv(c, s)
    ensures Inv(c, Run(c, s, turns))
  {
    assert Shaped(c, s);
    hide Inv, Step;
    if turns == [] {
    } else {
      RunKeepsInv(c, s, turns[..|turns| - 1]);
      StepInv(c, Run(c, s, turns[..|turns| - 1]), turns[|turns| - 1]);
    }
  }

  /** The invariant holds in every state of every interleaving. */
  lemma RunInv(c: Config, s: State, turns: seq<Turn>)
    requires c.Valid() && Initial(c, s)
    ensures Inv(c, Run(c, s, turns))
  {
    InitialInv(c, s);
    RunKeepsInv(c, s, turns);
  }

  // ---------- Safety of every interleaving ----------

  /** When core i is about to read the mailbox, the mailbox holds the address of its own stack. */
  lemma MailboxIsForReader(c: Config, s: State, turns: seq<Turn>, i: nat)
    requires c.Valid() && Initial(c, s) && i < c.nodes
    ensures Run(c, s, turns).cores[i] == Started ==> Run(c, s, turns).mailbox == c.Stack(i)
  {
    RunInv(c, s, turns);
    var r := Run(c, s, turns);
    assert i > 0 ==> CoreInv(c, r, i);
  }

  predicate HasId(core: Core) {
    core.HaveId? || core == Waiting || core == Left
  }

  /** Each core that has an id has its own number as id, so no two cores share one. */
  lemma IdsAreOwnNumbers(c: Config, s: State, turns: seq<Turn>, i: nat)
    requires c.Valid() && Initial(c, s) && i < c.nodes
    ensures var r := Run(c, s, turns);
      HasId(r.cores[i]) ==> r.ids[i] == i && (r.cores[i].HaveId? ==> r.cores[i].id == i)
  {
    RunInv(c, s, turns);
    var r := Run(c, s, turns);
    assert i > 0 ==> CoreInv(c, r, i);
  }

  /** Once any core is past the lock, all secondaries are up and init_cpus has completed. */
  lemma NobodyLeavesEarly(c: Config, s: State, turns: seq<Turn>, i: nat, j: nat)
    requires c.Valid() && Initial(c, s) && i < c.nodes && 1 <= j < c.nodes
    requires Run(c, s, turns).cores[i] == Left
    ensures var r := Run(c, s, turns);
      r.boot == Running && r.coreUp[j] == j && r.ids[j] == j && r.ids[0] == 0
  {
    RunInv(c, s, turns);
    var r := Run(c, s, turns);
    assert i > 0 ==> CoreInv(c, r, i);
    assert CoreInv(c, r, j);
  }

  predicate InTransit(s: State, i: nat)
    requires i < |s.cores| == |s.coreUp|
  {
    s.cores[i] != Off && s.coreUp[i] != i
  }

  /** At most one core is powered on but not up, and it is the one the boot core polls. */
  lemma OneInTransit(c: Config, s: State, turns: seq<Turn>, i: nat)
    requires c.Valid() && Initial(c, s) && 1 <= i < c.nodes
    ensures InTransit(Run(c, s, turns), i) ==> Run(c, s, turns).boot == Spin(i)
  {
    RunInv(c, s, turns);
    assert CoreInv(c, Run(c, s, turns), i);
  }

  // ---------- Progress of every interleaving ----------

  /** Turns that the boot core still has to make, polling not counted. */
  function BootWork(c: Config, s: State): nat
    requires Shaped(c, s)
  {
    match s.boot
    case Check => 3 * c.nodes + 3
    case Store(i) => 3 * (c.nodes - i) + 2
    case PowerOn(i) => 3 * (c.nodes - i) + 1
    case Spin(i) => 3 * (c.nodes - i)
    case SetId => 2
    case Unlock => 1
    case Running => 0
    case Aborted(_) => 0
  }

  function CoreWork(core: Core): nat {
    match core
    case Off => 5
    case Started => 4
    case HaveSp(_) => 3
    case HaveId(_) => 2
    case Waiting => 1
    case Left => 0
  }

  function CoresWork(cores: seq<Core>): nat {
    if cores == [] then 0 else CoresWork(cores[..|cores| - 1]) + CoreWork(cores[|cores| - 1])
  }

  function Work(c: Config, s: State): nat
    requires Shaped(c, s)
  {
    BootWork(c, s) + CoresWork(s.cores)
  }

  lemma {:induction false} CoresWorkUpdate(cores: seq<Core>, i: nat, core: Core)
    requires i < |cores|
    ensures CoresWork(cores[i := core]) == CoresWork(cores) - CoreWork(cores[i]) + CoreWork(core)
  {
    var n, after := |cores| - 1, cores[i := core];
    if i < n {
      CoresWorkUpdate(cores[..n], i, core);
      assert after[..n] == cores[..n][i := core];
    } else {
      assert after[..n] == cores[..n];
    }
  }

  lemma BootUsesWork(c: Config, s: State, ok: bool)
    requires Inv(c, s)
    ensures BootStep(c, s, ok) == s || Work(c, BootStep(c, s, ok)) < Work(c, s)
  {
    if s.boot.PowerOn? && ok {
      assert CoreInv(c, s, s.boot.i);
      hide Inv;
      CoresWorkUpdate(s.cores, s.boot.i, Started);
    }
  }

  lemma CoreUsesWork(c: Config, s: State, i: nat)
    requires Shaped(c, s) && i < c.nodes
    ensures CoreStep(c, s, i) == s || Work(c, CoreStep(c, s, i)) < Work(c, s)
  {
    var r := CoreStep(c, s, i);
    if r != s {
      assert CoreWork(r.cores[i]) < CoreWork(s.cores[i]) && r.cores == s.cores[i := r.cores[i]] && r.boot == s.boot;
      hide CoreStep, CoreWork, CoresWork;
      CoresWorkUpdate(s.cores, i, r.cores[i]);
    }
  }

  /** A turn either changes nothing (it polls in vain, or its core is done) or uses up work. */
  lemma StepUsesWork(c: Config, s: State, t: Turn)
    requires Inv(c, s)
    ensures Step(c, s, t) == s || Work(c, Step(c, s, t)) < Work(c, s)
  {
    assert Shaped(c, s);
    hide BootStep, CoreStep, Inv, Work;
    match t
    case BootTurn(ok) => BootUsesWork(c, s, ok);
    case CoreTurn(i) => if i < c.nodes { CoreUsesWork(c, s, i); }
  }

  /** Number of turns of a schedule that change the state. */
  function Effective(c: Config, s: State, turns: seq<Turn>): nat
    requires Shaped(c, s)
  {
    if turns == [] then 0
    else
      var front := turns[..|turns| - 1];
      Effective(c, s, front)
        + if Step(c, Run(c, s, front), turns[|turns| - 1]) == Run(c, s, front) then 0 else 1
  }

  /** However long the schedule, bring-up is over after at most this many turns that do something. */
  lemma {:induction false} BoundedWork(c: Config, s: State, turns: seq<Turn>)
    requires c.Valid() && Initial(c, s)
    ensures Effective(c, s, turns) + Work(c, Run(c, s, turns)) <= 8 * c.nodes + 3
  {
    if turns == [] {
      AllOffWork(s.cores);
    } else {
      var front := turns[..|turns| - 1];
      BoundedWork(c, s, front);
      RunInv(c, s, front);
      StepUsesWork(c, Run(c, s, front), turns[|turns| - 1]);
    }
  }

  lemma {:induction false} AllOffWork(cores: seq<Core>)
    requires forall i :: 0 <= i < |cores| ==> cores[i] == Off
    ensures CoresWork(cores) == 5 * |cores|
  {
    if cores == [] {
    } else {
      AllOffWork(cores[..|cores| - 1]);
    }
  }

  ghost predicate Stuck(c: Config, s: State)
    requires Shaped(c, s)
  {
    forall t :: Step(c, s, t) == s
  }

  /** All secondaries have left for the kernel with their own ids, and so has the boot core. */
  predicate Complete(c: Config, s: State)
    requires Shaped(c, s)
  {
    s.boot == Running && forall i :: 1 <= i < c.nodes ==> s.cores[i] == Left && s.ids[i] == i
  }

  /** Bring-up was given up: the cores brought up so far wait for ever, the others are off. */
  predicate GivenUp(c: Config, s: State)
    requires Shaped(c, s)
  {
    s.boot.Aborted? && forall i :: 1 <= i < c.nodes ==> s.cores[i] == if i < s.boot.i then Waiting else Off
  }

  /** There is no deadlock: a state in which no turn changes anything is a completed bring-up or one given up. */
  lemma StuckIffOver(c: Config, s: State, turns: seq<Turn>)
    requires c.Valid() && Initial(c, s)
    ensures Stuck(c, Run(c, s, turns)) <==> Complete(c, Run(c, s, turns)) || GivenUp(c, Run(c, s, turns))
  {
    RunInv(c, s, turns);
    var r := Run(c, s, turns);
    if Stuck(c, r) {
      StuckIsOver(c, r);
    }
    if Complete(c, r) || GivenUp(c, r) {
      forall t
        ensures Step(c, r, t) == r
      {
        OverStays(c, r, t);
      }
    }
  }

  lemma OverStays(c: Config, s: State, t: Turn)
    requires Inv(c, s) && (Complete(c, s) || GivenUp(c, s))
    ensures Step(c, s, t) == s
  {
    if t.CoreTurn? && t.i < c.nodes {
      assert t.i == 0 || s.cores[t.i] == Left || (s.boot.Aborted? && s.lock == 0);
    }
  }

  lemma StuckIsOver(c: Config, s: State)
    requires Inv(c, s) && Stuck(c, s)
    ensures Complete(c, s) || GivenUp(c, s)
  {
    assert Step(c, s, BootTurn(true)) == s;
    if s.boot.Spin? {
      SpinMoves(c, s);
    } else {
      forall i: nat | 1 <= i < c.nodes
        ensures s.boot == Running ==> s.cores[i] == Left && s.ids[i] == i
        ensures s.boot.Aborted? ==> s.cores[i] == if i < s.boot.i then Waiting else Off
      {
        assert Step(c, s, CoreTurn(i)) == s && CoreInv(c, s, i);
      }
    }
  }

  /** While the boot core polls core i, either the poll or core i itself can make progress. */
  lemma SpinMoves(c: Config, s: State)
    requires Inv(c, s) && s.boot.Spin?
    ensures Step(c, s, BootTurn(true)) != s || Step(c, s, CoreTurn(s.boot.i)) != s
  {
    assert CoreInv(c, s, s.boot.i);
  }

  // ---------- Fair schedules end ----------

  /** The boot core and every secondary get at least one turn. */
  predicate Round(c: Config, turns: seq<Turn>) {
    && (BootTurn(true) in turns || BootTurn(false) in turns)
    && forall i: nat :: i < c.nodes ==> CoreTurn(i) in turns
  }

  function Joined(rounds: seq<seq<Turn>>): seq<Turn> {
    if rounds == [] then [] else Joined(rounds[..|rounds| - 1]) + rounds[|rounds| - 1]
  }

  lemma {:induction false} RunConcat(c: Config, s: State, a: seq<Turn>, b: seq<Turn>)
    requires Shaped(c, s)
    ensures Run(c, s, a + b) == Run(c, Run(c, s, a), b)
  {
    hide Step;
    if b == [] {
      assert a + b == a;
    } else {
      var front := b[..|b| - 1];
      assert (a + b)[..|a + b| - 1] == a + front;
      RunConcat(c, s, a, front);
    }
  }

  /** Turns that use up no work were all in vain. */
  lemma {:induction false} InVain(c: Config, s: State, turns: seq<Turn>)
    requires Inv(c, s)
    ensures Work(c, Run(c, s, turns)) <= Work(c, s)
    ensures Work(c, Run(c, s, turns)) == Work(c, s) ==>
      Run(c, s, turns) == s && forall t :: t in turns ==> Step(c, s, t) == s
  {
    assert Shaped(c, s);
    hide Inv, Step, Work;
    if turns == [] {
    } else {
      var front, last := turns[..|turns| - 1], turns[|turns| - 1];
      InVain(c, s, front);
      RunKeepsInv(c, s, front);
      StepUsesWork(c, Run(c, s, front), last);
      assert forall t :: t in turns ==> t in front || t == last;
    }
  }

  /** Whether psci_cpu_on succeeds makes no difference to whether the boot core can move. */
  lemma EitherBootTurn(c: Config, s: State, ok: bool)
    requires Inv(c, s)
    ensures Step(c, s, BootTurn(ok)) == s <==> Step(c, s, BootTurn(!ok)) == s
  {
  }

  /** A round uses up work unless nothing can move any more. */
  lemma RoundWorks(c: Config, s: State, turns: seq<Turn>)
    requires Inv(c, s) && Round(c, turns)
    ensures Work(c, Run(c, s, turns)) < Work(c, s) || Stuck(c, s)
  {
    assert Shaped(c, s);
    hide Inv, Run, Work;
    InVain(c, s, turns);
    if Work(c, Run(c, s, turns)) == Work(c, s) {
      forall t
        ensures Step(c, s, t) == s
      {
        match t
        case BootTurn(ok) => if t !in turns { EitherBootTurn(c, s, !ok); }
        case CoreTurn(i) => assert i < c.nodes ==> t in turns;
      }
    }
  }

  lemma {:induction false} StuckStays(c: Config, s: State, turns: seq<Turn>)
    requires Shaped(c, s) && Stuck(c, s)
    ensures Run(c, s, turns) == s
  {
    hide Step;
    if turns == [] {
    } else {
      StuckStays(c, s, turns[..|turns| - 1]);
    }
  }

  lemma {:induction false} RoundsWork(c: Config, s: State, rounds: seq<seq<Turn>>)
    requires c.Valid() && Initial(c, s) && forall r :: r in rounds ==> Round(c, r)
    ensures var r := Run(c, s, Joined(rounds));
      Stuck(c, r) || Work(c, r) + |rounds| <= 8 * c.nodes + 3
  {
    assert Shaped(c, s);
    hide Initial, Round, Run, Stuck, Work;
    if rounds == [] {
      BoundedWork(c, s, []);
    } else {
      var front, last := rounds[..|rounds| - 1], rounds[|rounds| - 1];
      var before := Run(c, s, Joined(front));
      RoundsWork(c, s, front);
      RunConcat(c, s, Joined(front), last);
      RunInv(c, s, Joined(front));
      RoundWorks(c, before, last);
      if Stuck(c, before) {
        StuckStays(c, before, last);
      }
    }
  }

  /** Bring-up is given up only if there are too few cores or psci_cpu_on has failed, */
  lemma {:induction false} AbortedForAReason(c: Config, s: State, turns: seq<Turn>)
    requires c.Valid() && Initial(c, s) && c.nodes <= c.maxCores && BootTurn(false) !in turns
    ensures !Run(c, s, turns).boot.Aborted?
  {
    if turns == [] {
    } else {
      assert BootTurn(false) !in turns[..|turns| - 1] && turns[|turns| - 1] != BootTurn(false);
      AbortedForAReason(c, s, turns[..|turns| - 1]);
    }
  }

  /** and if there are too few cores nothing else ever happens. */
  lemma {:induction false} TooFewCores(c: Config, s: State, turns: seq<Turn>)
    requires c.Valid() && Initial(c, s) && c.nodes > c.maxCores
    ensures Run(c, s, turns).boot == Check || Run(c, s, turns).boot.Aborted?
  {
    if turns == [] {
    } else {
      TooFewCores(c, s, turns[..|turns| - 1]);
    }
  }

  /** A failed psci_cpu_on is always a reason: whatever the schedule, core i and all after it then stay off. */
  lemma FailureIsFinal(c: Config, s: State, turns: seq<Turn>, i: nat, more: seq<Turn>, j: nat)
    requires c.Valid() && Initial(c, s) && Run(c, s, turns).boot == PowerOn(i) && i <= j < c.nodes
    ensures var r := Run(c, s, turns + [BootTurn(false)] + more);
      r.boot == Aborted(i) && r.cores[j] == Off && r.lock == 0
  {
    var failed := turns + [BootTurn(false)];
    assert failed[..|turns|] == turns;
    RunInv(c, s, failed);
    AbortedStays(c, Run(c, s, failed), more, i);
    RunConcat(c, s, failed, more);
    RunInv(c, s, failed + more);
    assert CoreInv(c, Run(c, s, failed + more), j);
  }

  lemma {:induction false} AbortedStays(c: Config, s: State, turns: seq<Turn>, i: nat)
    requires Shaped(c, s) && s.boot == Aborted(i)
    ensures Run(c, s, turns).boot == Aborted(i)
  {
    if turns == [] {
    } else {
      AbortedStays(c, s, turns[..|turns| - 1], i);
    }
  }

  /**
   Every fair schedule that is long enough completes bring-up, or gives it up.
   It completes if there are enough cores and psci_cpu_on never fails; with too
   few cores it never does.
   */
  lemma FairSchedulesEnd(c: Config, s: State, rounds: seq<seq<Turn>>)
    requires c.Valid() && Initial(c, s) && forall r :: r in rounds ==> Round(c, r)
    requires |rounds| >= 8 * c.nodes + 3
    ensures Complete(c, Run(c, s, Joined(rounds))) || GivenUp(c, Run(c, s, Joined(rounds)))
    ensures c.nodes <= c.maxCores && BootTurn(false) !in Joined(rounds) ==> Complete(c, Run(c, s, Joined(rounds)))
    ensures c.nodes > c.maxCores ==> GivenUp(c, Run(c, s, Joined(rounds)))
  {
    EndsOver(c, s, rounds);
    hide Initial, Round, Run, Step;
    if c.nodes > c.maxCores {
      TooFewCores(c, s, Joined(rounds));
    } else if BootTurn(false) !in Joined(rounds) {
      AbortedForAReason(c, s, Joined(rounds));
    }
  }

  lemma EndsOver(c: Config, s: State, rounds: seq<seq<Turn>>)
    requires c.Valid() && Initial(c, s) && forall r :: r in rounds ==> Round(c, r)
    requires |rounds| >= 8 * c.nodes + 3
    ensures Complete(c, Run(c, s, Joined(rounds))) || GivenUp(c, Run(c, s, Joined(rounds)))
  {
    assert Shaped(c, s);
    hide Complete, GivenUp, Initial, Round, Run, Step;
    var r := Run(c, s, Joined(rounds));
    RoundsWork(c, s, rounds);
    RunInv(c, s, Joined(rounds));
    if Work(c, r) == 0 {
      forall t
        ensures Step(c, r, t) == r
      {
        StepUsesWork(c, r, t);
      }
    }
    StuckIffOver(c, s, Joined(rounds));
  }
}
