/** cpu-miner.c: how the mining threads agree to rebuild the shared RandomX dataset when the seed changes. */
module DatasetRebuild {
  import opened Words
  import opened Barrier

  /** The 32 bytes of a seed hash. Only equality of seeds matters here. */
  type Seed = int

  /** The initial rx_current_key. Seeds are hashes, none of which is taken to be all zeros. */
  const ZERO: Seed := 0

  /** Where a mining thread is, in the order of the code of its main loop. */
  datatype Pc =
    | Fetch | Check | SetFlag | Arriving | AtBarrier | DestroyVm | Locking | Testing
    | Releasing | Keying | Building | Unlocking | CreateVm | Scanning

  datatype Vm = NoVm | Vm(dataset: nat, key: Seed)

  datatype Dataset = NoDataset | Dataset(id: nat, key: Seed)

  datatype Owner = Free | Held(who: nat)

  /** A thread: its place, the seed of its own copy of the work, which change of the seed that was, its rx_vm. */
  datatype Miner = Miner(pc: Pc, seed: Seed, change: nat, vm: Vm)

  /** A rebuild, by one thread for one change of the seed. */
  datatype Rebuild = Rebuild(who: nat, change: nat)

  /** The shared variables, the threads, and three records that the code does not keep: how often the seed
      has changed, how many of these changes need no rebuild, and the rebuilds. */
  datatype State = State(
    bar: Sys, miners: seq<Miner>,
    work: Seed, key: Seed, flag: bool, dataset: Dataset, lock: Owner,
    changes: nat, spared: nat, log: seq<Rebuild>)

  datatype Action = Move(t: nat) | NewSeed(seed: Seed)

  /** `work` is the seed of the first work. */
  function Start(threads: nat, work: Seed): State {
    State(InitSys(threads), seq(threads, _ => Miner(Fetch, ZERO, 0, NoVm)),
          work, ZERO, false, NoDataset, Free, 1, 0, [])
  }

  function Put(st: State, t: nat, m: Miner): State
    requires t < |st.miners|
  {
    st.(miners := st.miners[t := m])
  }

  /** A thread can always take its next step, except that it waits for the mutex while another holds it. */
  predicate CanMove(st: State, t: nat) {
    t < |st.miners| && |st.bar.threads| == |st.miners|
    && (st.miners[t].pc.Locking? ==> st.lock == Free)
    && (st.miners[t].pc.AtBarrier? ==> st.bar.threads[t].where.Waiting?)
  }

  /** The next step of thread `t`. */
  function MoveStep(st: State, t: nat): State
    requires CanMove(st, t)
  {
    var m := st.miners[t];
    match m.pc
    case Fetch => Put(st, t, m.(pc := Check, seed := st.work, change := st.changes))
    case Check => Put(st, t, m.(pc := if st.key != m.seed then SetFlag else Scanning))
    case SetFlag => Put(st.(flag := true), t, m.(pc := Arriving))
    case Arriving =>
      var b := Arrive(st.bar, t);
      Put(st.(bar := b), t, m.(pc := if b.threads[t].where.Waiting? then AtBarrier else DestroyVm))
    case AtBarrier =>
      var b := Wake(st.bar, t);
      Put(st.(bar := b), t, m.(pc := if b.threads[t].where.Waiting? then AtBarrier else DestroyVm))
    case DestroyVm => Put(st, t, m.(pc := Locking, vm := NoVm))
    case Locking => Put(st.(lock := Held(t)), t, m.(pc := Testing))
    case Testing =>
      if st.flag then Put(st.(flag := false, log := st.log + [Rebuild(t, m.change)]), t, m.(pc := Releasing))
      else Put(st, t, m.(pc := Unlocking))
    case Releasing => Put(st.(dataset := NoDataset), t, m.(pc := Keying))
    case Keying => Put(st.(key := m.seed), t, m.(pc := Building))
    case Building => Put(st.(dataset := Dataset(|st.log|, st.key)), t, m.(pc := Unlocking))
    case Unlocking => Put(st.(lock := Free), t, m.(pc := CreateVm))
    case CreateVm =>
      Put(st, t, m.(pc := Scanning, vm := if st.dataset.NoDataset? then NoVm else Vm(st.dataset.id, st.dataset.key)))
    case Scanning => Put(st, t, m.(pc := Fetch))
  }

  function Count(b: bool): nat {
    if b then 1 else 0
  }

  /** The work gets another seed. A change needs no rebuild if its seed is replaced before anyone rebuilds for
      it, or if it goes back to the seed of the dataset. */
  function SeedStep(st: State, seed: Seed): State {
    st.(work := seed, changes := st.changes + 1,
        spared := st.spared + Count(st.key != st.work) + Count(seed == st.key))
  }

  /** From the test that finds another key on to the test of the flag, and through the rebuild. */
  predicate Inside(m: Miner, key: Seed) {
    m.pc in {SetFlag, Arriving, AtBarrier, DestroyVm, Locking, Testing, Releasing, Keying, Building}
    || (m.pc.Check? && m.seed != key)
  }

  /** No thread is on its way through the rebuild: each is outside it, or past the flag test. */
  predicate Settled(st: State) {
    forall t | 0 <= t < |st.miners| :: !Inside(st.miners[t], st.key)
  }

  /** An action the system may take; `calm` restricts changes of the seed to settled states. */
  predicate Allowed(st: State, a: Action, calm: bool) {
    match a
    case Move(t) => CanMove(st, t)
    case NewSeed(s) => s != st.work && s != ZERO && (calm ==> Settled(st))
  }

  function Do(st: State, a: Action): State
    requires Allowed(st, a, false)
  {
    match a
    case Move(t) => MoveStep(st, t)
    case NewSeed(s) => SeedStep(st, s)
  }

  // ----- the invariant -----

  /** What is going on, read off the state: the dataset is there, and threads may be gathering at the barrier
      for another seed; the barrier is open, and nobody rebuilds yet; one thread is rebuilding. */
  datatype Stage = Idle | Open | Rebuilding

  predicate HoldsLock(pc: Pc) {
    pc in {Testing, Releasing, Keying, Building, Unlocking}
  }

  predicate Rebuilds(pc: Pc) {
    pc in {Releasing, Keying, Building}
  }

  predicate InProgress(st: State) {
    st.lock.Held? && st.lock.who < |st.miners| && Rebuilds(st.miners[st.lock.who].pc)
  }

  function StageOf(st: State): Stage {
    if |st.log| < st.bar.epoch then Open else if InProgress(st) then Rebuilding else Idle
  }

  /** The dataset of the `n`-th rebuild. */
  function DatasetAfter(n: nat, key: Seed): Dataset {
    if n == 0 then NoDataset else Dataset(n, key)
  }

  function VmAfter(n: nat, key: Seed): Vm {
    if n == 0 then NoVm else Vm(n, key)
  }

  /** Every rebuild is for a later change of the seed than the one before it. */
  predicate Increasing(log: seq<Rebuild>, below: nat) {
    (forall i, j | 0 <= i < j < |log| :: log[i].change < log[j].change)
    && forall i | 0 <= i < |log| :: log[i].change < below
  }

  /** The last rebuild was for the last change. */
  predicate JustRebuilt(st: State) {
    st.log != [] && st.log[|st.log| - 1].change == st.changes
  }

  predicate SharedOk(st: State) {
    st.work != ZERO
    && match StageOf(st)
       case Idle =>
         st.bar.epoch == |st.log| && st.dataset == DatasetAfter(|st.log|, st.key)
         && (|st.log| == 0 <==> st.key == ZERO)
         && |st.log| + st.spared + Count(st.key != st.work) == st.changes
         && Increasing(st.log, if st.key != st.work then st.changes else st.changes + 1)
       case Open =>
         st.bar.epoch == |st.log| + 1 && st.flag
         && |st.log| + st.spared + 1 == st.changes && Increasing(st.log, st.changes)
       case Rebuilding =>
         st.bar.epoch == |st.log| && !st.flag && JustRebuilt(st)
         && |st.log| + st.spared == st.changes && Increasing(st.log, st.changes + 1)
         && (st.miners[st.lock.who].pc in {Keying, Building} ==> st.dataset == NoDataset)
         && (st.miners[st.lock.who].pc == Building ==> st.key == st.work)
  }

  /** On the way to the barrier for the seed of the work. */
  predicate Noticed(m: Miner, st: State) {
    m.seed == st.work != st.key && m.change == st.changes
  }

  /** Past the barrier after another thread has rebuilt. */
  predicate Late(m: Miner, st: State) {
    m.seed == st.work == st.key && m.change == st.changes && !st.flag && JustRebuilt(st)
  }

  predicate IdleOk(m: Miner, b: Thread, st: State) {
    var vm := VmAfter(|st.log|, st.key);
    match m.pc
    case Fetch => m.vm == vm
    case Check => m.vm == vm && m.seed != ZERO && (m.seed == st.key || Noticed(m, st))
    case Scanning => m.vm == vm && |st.log| > 0 && m.seed == st.key
    case SetFlag => m.vm == vm && Noticed(m, st)
    case Arriving => m.vm == vm && Noticed(m, st) && st.flag
    case AtBarrier =>
      if Current(b, st.bar.epoch) then m.vm == vm && Noticed(m, st) && st.flag
      else Laggard(b, st.bar.epoch) && Late(m, st)
    case DestroyVm => Late(m, st)
    case Locking => Late(m, st)
    case Testing => Late(m, st)
    case Unlocking => |st.log| > 0 && m.seed == st.key
    case CreateVm => |st.log| > 0 && m.seed == st.key
    case _ => false
  }

  /** What holds of a thread `m`, whose barrier record is `b`, at each stage. */
  predicate MinerOk(m: Miner, b: Thread, st: State) {
    (m.pc.AtBarrier? <==> b.where.Waiting?)
    && (HoldsLock(m.pc) || m.pc.Locking? || m.pc.CreateVm? ==> m.vm == NoVm)
    && match StageOf(st)
       case Idle => IdleOk(m, b, st)
       case Open =>
         m.seed == st.work && m.change == st.changes
         && (m.pc in {DestroyVm, Locking, Testing} || (m.pc.AtBarrier? && Laggard(b, st.bar.epoch)))
       case Rebuilding =>
         m.seed == st.work && m.change == st.changes
         && (m.pc in {DestroyVm, Locking} || Rebuilds(m.pc) || (m.pc.AtBarrier? && Laggard(b, st.bar.epoch)))
  }

  predicate AtOk(st: State, t: nat)
    requires t < |st.miners| && |st.bar.threads| == |st.miners|
  {
    MinerOk(st.miners[t], st.bar.threads[t], st)
    && (HoldsLock(st.miners[t].pc) <==> st.lock == Held(t))
  }

  ghost predicate Safe(st: State) {
    |st.miners| > 0 && |st.bar.threads| == |st.miners| && Barrier.Inv(st.bar)
    && (st.lock.Held? ==> st.lock.who < |st.miners|)
    && SharedOk(st)
    && forall t: nat | t < |st.miners| :: AtOk(st, t)
  }

  // ----- every step keeps it -----

  lemma StartSafe(threads: nat, work: Seed)
    requires threads > 0 && work != ZERO
    ensures Safe(Start(threads, work))
  {
    InitHolds(threads);
  }

  /** A step that writes only the thread's own record, away from the rebuilding section. */
  lemma OwnRecord(st: State, t: nat, m: Miner)
    requires Safe(st) && t < |st.miners|
    requires !Rebuilds(st.miners[t].pc) && !Rebuilds(m.pc)
    requires HoldsLock(m.pc) <==> HoldsLock(st.miners[t].pc)
    requires MinerOk(m, st.bar.threads[t], st)
    ensures Safe(Put(st, t, m))
  {
    var st' := Put(st, t, m);
    assert AtOk(st, t);
    assert InProgress(st') == InProgress(st);
    assert StageOf(st') == StageOf(st);
    forall u: nat | u < |st'.miners| ensures AtOk(st', u) {
      assert AtOk(st, u);
    }
  }

  lemma OwnSteps(st: State, t: nat)
    requires Safe(st) && CanMove(st, t)
    requires st.miners[t].pc in {Fetch, Check, DestroyVm, CreateVm, Scanning} || (st.miners[t].pc.Testing? && !st.flag)
    ensures Safe(MoveStep(st, t))
  {
    assert AtOk(st, t);
    OwnRecord(st, t, MoveStep(st, t).miners[t]);
  }

  lemma SetFlagStep(st: State, t: nat)
    requires Safe(st) && CanMove(st, t) && st.miners[t].pc.SetFlag?
    ensures Safe(MoveStep(st, t))
  {
    var st' := MoveStep(st, t);
    assert AtOk(st, t);
    assert StageOf(st') == StageOf(st) == Idle;
    forall u: nat | u < |st'.miners| ensures AtOk(st', u) {
      assert AtOk(st, u);
    }
  }

  /** Arriving, but not last: the stage stays. */
  lemma ArriveNotLast(st: State, t: nat)
    requires Safe(st) && CanMove(st, t) && st.miners[t].pc.Arriving?
    requires Arrive(st.bar, t).threads[t].where.Waiting?
    ensures Safe(MoveStep(st, t))
  {
    var st' := MoveStep(st, t);
    assert AtOk(st, t);
    ArriveKeeps(st.bar, t);
    assert ThreadOk(st.bar.threads[t], st.bar.epoch);
    assert StageOf(st') == StageOf(st) == Idle;
    forall u: nat | u < |st'.miners| ensures AtOk(st', u) {
      assert AtOk(st, u);
    }
  }

  /** The last arrival opens the barrier: everybody else is waiting there, with the new seed. */
  lemma ArriveLast(st: State, t: nat)
    requires Safe(st) && CanMove(st, t) && st.miners[t].pc.Arriving?
    requires !Arrive(st.bar, t).threads[t].where.Waiting?
    ensures Safe(MoveStep(st, t))
  {
    var st' := MoveStep(st, t);
    assert AtOk(st, t);
    ArriveKeeps(st.bar, t);
    AllOthersCurrent(st.bar.threads, t, st.bar.epoch);
    assert StageOf(st') == Open;
    forall u: nat | u < |st'.miners| ensures AtOk(st', u) {
      assert AtOk(st, u);
    }
  }

  lemma BarrierStep(st: State, t: nat)
    requires Safe(st) && CanMove(st, t) && st.miners[t].pc.AtBarrier?
    ensures Safe(MoveStep(st, t))
  {
    var st' := MoveStep(st, t);
    assert AtOk(st, t);
    WakeKeeps(st.bar, t);
    WakeDecides(st.bar, t);
    assert InProgress(st') == InProgress(st);
    assert StageOf(st') == StageOf(st);
    forall u: nat | u < |st'.miners| ensures AtOk(st', u) {
      assert AtOk(st, u);
    }
  }

  lemma LockStep(st: State, t: nat)
    requires Safe(st) && CanMove(st, t) && st.miners[t].pc.Locking?
    ensures Safe(MoveStep(st, t))
  {
    var st' := MoveStep(st, t);
    assert AtOk(st, t);
    assert StageOf(st') == StageOf(st);
    forall u: nat | u < |st'.miners| ensures AtOk(st', u) {
      assert AtOk(st, u);
    }
  }

  /** Clearing the flag: from Open to Rebuilding, with this thread as the only one rebuilding. */
  lemma TakeStep(st: State, t: nat)
    requires Safe(st) && CanMove(st, t) && st.miners[t].pc.Testing? && st.flag
    ensures Safe(MoveStep(st, t))
  {
    var st' := MoveStep(st, t);
    assert AtOk(st, t);
    assert StageOf(st) == Open && StageOf(st') == Rebuilding;
    forall u: nat | u < |st'.miners| ensures AtOk(st', u) {
      assert AtOk(st, u);
    }
  }

  lemma RebuildStep(st: State, t: nat)
    requires Safe(st) && CanMove(st, t) && st.miners[t].pc in {Releasing, Keying}
    ensures Safe(MoveStep(st, t))
  {
    var st' := MoveStep(st, t);
    assert AtOk(st, t);
    assert StageOf(st) == Rebuilding && StageOf(st') == Rebuilding;
    forall u: nat | u < |st'.miners| ensures AtOk(st', u) {
      assert AtOk(st, u);
    }
  }

  /** The dataset is initialised: from Rebuilding to Idle, and all others are late. */
  lemma BuildStep(st: State, t: nat)
    requires Safe(st) && CanMove(st, t) && st.miners[t].pc.Building?
    ensures Safe(MoveStep(st, t))
  {
    var st' := MoveStep(st, t);
    assert AtOk(st, t);
    assert StageOf(st) == Rebuilding && StageOf(st') == Idle;
    forall u: nat | u < |st'.miners| ensures AtOk(st', u) {
      assert AtOk(st, u);
    }
  }

  lemma UnlockStep(st: State, t: nat)
    requires Safe(st) && CanMove(st, t) && st.miners[t].pc.Unlocking?
    ensures Safe(MoveStep(st, t))
  {
    var st' := MoveStep(st, t);
    assert AtOk(st, t);
    assert StageOf(st) == Idle && StageOf(st') == Idle;
    forall u: nat | u < |st'.miners| ensures AtOk(st', u) {
      assert AtOk(st, u);
    }
  }

  /** A settled state may get another seed. */
  lemma SeedKeeps(st: State, seed: Seed)
    requires Safe(st) && Allowed(st, NewSeed(seed), true)
    ensures Safe(SeedStep(st, seed))
  {
    var st' := SeedStep(st, seed);
    assert AtOk(st, 0) && !Inside(st.miners[0], st.key);
    if st.lock.Held? {
      assert !Inside(st.miners[st.lock.who], st.key);
    }
    assert StageOf(st) == Idle && StageOf(st') == Idle;
    forall u: nat | u < |st'.miners| ensures AtOk(st', u) {
      assert AtOk(st, u) && !Inside(st.miners[u], st.key);
    }
  }

  lemma MoveKeeps(st: State, t: nat)
    requires Safe(st) && CanMove(st, t)
    ensures Safe(MoveStep(st, t))
  {
    hide Safe;
    match st.miners[t].pc
    case Fetch => OwnSteps(st, t);
    case Check => OwnSteps(st, t);
    case SetFlag => SetFlagStep(st, t);
    case Arriving =>
      if Arrive(st.bar, t).threads[t].where.Waiting? { ArriveNotLast(st, t); } else { ArriveLast(st, t); }
    case AtBarrier => BarrierStep(st, t);
    case DestroyVm => OwnSteps(st, t);
    case Locking => LockStep(st, t);
    case Testing => if st.flag { TakeStep(st, t); } else { OwnSteps(st, t); }
    case Releasing => RebuildStep(st, t);
    case Keying => RebuildStep(st, t);
    case Building => BuildStep(st, t);
    case Unlocking => UnlockStep(st, t);
    case CreateVm => OwnSteps(st, t);
    case Scanning => OwnSteps(st, t);
  }

  // ----- what every run guarantees -----

  /** A run from the start, taking the given actions; `calm` as in Allowed. */
  ghost predicate IsRun(run: seq<State>, actions: seq<Action>, calm: bool) {
    |run| == |actions| + 1
    && (exists threads: nat, work: Seed :: threads > 0 && work != ZERO && run[0] == Start(threads, work))
    && forall i | 0 <= i < |actions| :: TakesStep(run[i], actions[i], run[i + 1], calm)
  }

  ghost predicate TakesStep(st: State, a: Action, st': State, calm: bool) {
    Allowed(st, a, calm) && st' == Do(st, a)
  }

  lemma {:induction false} RunSafe(run: seq<State>, actions: seq<Action>, i: nat)
    requires IsRun(run, actions, true) && i < |run|
    ensures Safe(run[i])
  {
    hide Safe, MoveStep;
    if i == 0 {
      var threads: nat, work: Seed :| threads > 0 && work != ZERO && run[0] == Start(threads, work);
      StartSafe(threads, work);
    } else {
      RunSafe(run, actions, i - 1);
      assert TakesStep(run[i - 1], actions[i - 1], run[i], true);
      match actions[i - 1]
      case Move(t) => MoveKeeps(run[i - 1], t);
      case NewSeed(seed) => SeedKeeps(run[i - 1], seed);
    }
  }

  /** A thread that scans uses a VM over the dataset that exists, made for the seed of its own work. */
  predicate ScansSoundly(st: State, m: Miner) {
    m.vm.Vm? && st.dataset == Dataset(m.vm.dataset, m.vm.key) && m.vm.key == m.seed
  }

  lemma ScansAreSound(run: seq<State>, actions: seq<Action>, i: nat, t: nat)
    requires IsRun(run, actions, true) && i < |run| && t < |run[i].miners|
    requires run[i].miners[t].pc.Scanning?
    ensures ScansSoundly(run[i], run[i].miners[t])
  {
    RunSafe(run, actions, i);
    assert AtOk(run[i], t);
  }

  /** Only one thread at a time is in the rebuilding section, it rebuilds for the newest seed, and nobody
      scans meanwhile. */
  lemma RebuildsAlone(run: seq<State>, actions: seq<Action>, i: nat, t: nat, u: nat)
    requires IsRun(run, actions, true) && i < |run| && t < |run[i].miners| && u < |run[i].miners| && t != u
    requires Rebuilds(run[i].miners[t].pc)
    ensures !Rebuilds(run[i].miners[u].pc) && run[i].miners[u].pc != Scanning
    ensures run[i].miners[t].seed == run[i].work
  {
    RunSafe(run, actions, i);
    assert AtOk(run[i], t) && AtOk(run[i], u);
  }

  /** A VM over a dataset that is gone is held only at the barrier or right behind it, where the next step
      destroys it: nobody scans with it again. */
  lemma StaleVmsAreDestroyed(run: seq<State>, actions: seq<Action>, i: nat, t: nat)
    requires IsRun(run, actions, true) && i < |run| && t < |run[i].miners| && run[i].miners[t].vm.Vm?
    requires run[i].dataset != Dataset(run[i].miners[t].vm.dataset, run[i].miners[t].vm.key)
    ensures run[i].miners[t].pc in {AtBarrier, DestroyVm}
    ensures run[i].miners[t].pc.DestroyVm? ==>
              CanMove(run[i], t) && MoveStep(run[i], t).miners[t].vm == NoVm
  {
    RunSafe(run, actions, i);
    assert AtOk(run[i], t);
  }

  /** One rebuild for each change of the seed that needs one, and none twice: at most one is outstanding, and
      none once a thread scans work for the newest seed. */
  lemma OneRebuildPerSeed(run: seq<State>, actions: seq<Action>, i: nat)
    requires IsRun(run, actions, true) && i < |run|
    ensures Increasing(run[i].log, run[i].changes + 1)
    ensures |run[i].log| + run[i].spared <= run[i].changes <= |run[i].log| + run[i].spared + 1
    ensures forall t: nat | t < |run[i].miners| && run[i].miners[t].pc.Scanning? ::
              run[i].miners[t].seed == run[i].work ==> |run[i].log| + run[i].spared == run[i].changes
  {
    RunSafe(run, actions, i);
    forall t: nat | t < |run[i].miners| && run[i].miners[t].pc.Scanning?
      ensures run[i].miners[t].seed == run[i].work ==> |run[i].log| + run[i].spared == run[i].changes
    {
      assert AtOk(run[i], t);
    }
  }

  // ----- no run gets stuck, calm or not -----

  predicate LiveAt(st: State, t: nat)
    requires t < |st.miners| && |st.bar.threads| == |st.miners|
  {
    (st.miners[t].pc.AtBarrier? <==> st.bar.threads[t].where.Waiting?)
    && (HoldsLock(st.miners[t].pc) <==> st.lock == Held(t))
  }

  /** Barrier and lock are used as they must be. */
  ghost predicate Live(st: State) {
    |st.miners| > 0 && |st.bar.threads| == |st.miners| && Barrier.Inv(st.bar)
    && (st.lock.Held? ==> st.lock.who < |st.miners|)
    && forall t: nat | t < |st.miners| :: LiveAt(st, t)
  }

  lemma LiveMove(st: State, t: nat)
    requires Live(st) && CanMove(st, t)
    ensures Live(MoveStep(st, t))
  {
    hide Arrive, Wake, Barrier.Inv;
    var st' := MoveStep(st, t);
    assert LiveAt(st, t);
    if st.miners[t].pc.Arriving? {
      ArriveKeeps(st.bar, t);
      ArriveOnly(st.bar, t);
    } else if st.miners[t].pc.AtBarrier? {
      WakeKeeps(st.bar, t);
      WakeOnly(st.bar, t);
    }
    forall u: nat | u < |st'.miners| ensures LiveAt(st', u) {
      assert LiveAt(st, u);
    }
  }

  lemma LiveSeed(st: State, seed: Seed)
    requires Live(st)
    ensures Live(SeedStep(st, seed))
  {
    var st' := SeedStep(st, seed);
    forall t: nat | t < |st'.miners| ensures LiveAt(st', t) {
      assert LiveAt(st, t);
    }
  }

  lemma ArriveOnly(s: Sys, t: nat)
    requires t < |s.threads|
    ensures |Arrive(s, t).threads| == |s.threads|
    ensures forall u | 0 <= u < |s.threads| && u != t :: Arrive(s, t).threads[u] == s.threads[u]
  {
  }

  lemma WakeOnly(s: Sys, t: nat)
    requires t < |s.threads| && s.threads[t].where.Waiting?
    ensures |Wake(s, t).threads| == |s.threads|
    ensures forall u | 0 <= u < |s.threads| && u != t :: Wake(s, t).threads[u] == s.threads[u]
  {
  }

  lemma {:induction false} RunLive(run: seq<State>, actions: seq<Action>, calm: bool, i: nat)
    requires IsRun(run, actions, calm) && i < |run|
    ensures Live(run[i])
  {
    hide MoveStep;
    if i == 0 {
      var threads: nat, work: Seed :| threads > 0 && work != ZERO && run[0] == Start(threads, work);
      InitHolds(threads);
    } else {
      RunLive(run, actions, calm, i - 1);
      assert TakesStep(run[i - 1], actions[i - 1], run[i], calm);
      match actions[i - 1]
      case Move(t) => LiveMove(run[i - 1], t);
      case NewSeed(seed) => LiveSeed(run[i - 1], seed);
    }
  }

  /** The protocol cannot deadlock, whenever the seed changes: some thread can move, and not just by looking at
      the barrier in vain. */
  lemma NeverStuck(run: seq<State>, actions: seq<Action>, calm: bool, i: nat)
    requires IsRun(run, actions, calm) && i < |run|
    ensures exists t: nat :: CanMove(run[i], t) && MoveStep(run[i], t) != run[i]
  {
    RunLive(run, actions, calm, i);
    var st := run[i];
    if st.lock.Held? {
      assert LiveAt(st, st.lock.who);
      assert CanMove(st, st.lock.who) && MoveStep(st, st.lock.who) != st;
    } else if exists t: nat :: t < |st.miners| && !st.miners[t].pc.AtBarrier? {
      var t: nat :| t < |st.miners| && !st.miners[t].pc.AtBarrier?;
      assert LiveAt(st, t);
      assert CanMove(st, t);
      assert MoveStep(st, t).miners[t].pc != st.miners[t].pc;
    } else {
      assert forall t: nat | t < |st.miners| :: LiveAt(st, t);
      if forall t: nat | t < |st.bar.threads| :: Current(st.bar.threads[t], st.bar.epoch) {
        AllCurrentCount(st.bar.threads, st.bar.epoch);
        assert false;
      }
      var t: nat :| t < |st.bar.threads| && !Current(st.bar.threads[t], st.bar.epoch);
      assert LiveAt(st, t) && ThreadOk(st.bar.threads[t], st.bar.epoch);
      WakeDecides(st.bar, t);
      assert CanMove(st, t) && MoveStep(st, t) != st;
    }
  }

  // ----- initialising the dataset in parallel -----

  /** Where chunk `i` starts. */
  function ChunkStart(i: nat, chunk: nat): nat {
    i * chunk
  }

  /** The loop that splits the dataset items over the initialiser threads. */
  method SplitDataset(items: nat, processors: nat) returns (start: array<nat>, count: array<nat>)
    requires processors > 0
    ensures start.Length == processors && count.Length == processors
    ensures Consecutive(start[..], count[..], items)
  {
    hide ChunkStart, Consecutive;
    start, count := new nat[processors](_ => 0), new nat[processors](_ => 0);
    var chunk := items / processors;
    for i := 0 to processors
      modifies start, count
      invariant forall j | 0 <= j < i :: start[j] == ChunkStart(j, chunk)
      invariant forall j | 0 <= j < i && j < processors - 1 :: count[j] == chunk
      invariant i == processors ==> count[processors - 1] == items - start[processors - 1]
    {
      ChunksFit(items, processors, i);
      start[i] := ChunkStart(i, chunk);
      if i == processors - 1 {
        count[i] := items - start[i];
      } else {
        count[i] := chunk;
      }
    }
    Chunked(start[..], count[..], items, chunk);
  }

  lemma Chunked(start: seq<nat>, count: seq<nat>, items: nat, chunk: nat)
    requires |start| == |count| > 0
    requires forall j | 0 <= j < |start| :: start[j] == ChunkStart(j, chunk)
    requires forall j | 0 <= j < |start| - 1 :: count[j] == chunk
    requires count[|start| - 1] == items - start[|start| - 1]
    ensures Consecutive(start, count, items)
  {
    hide ChunkStart;
    FirstChunk(chunk);
    forall j | 0 <= j < |start| - 1 ensures start[j] + count[j] == start[j + 1] {
      NextChunk(j, chunk);
    }
  }

  lemma FirstChunk(chunk: nat)
    ensures ChunkStart(0, chunk) == 0
  {
  }

  lemma NextChunk(j: nat, chunk: nat)
    ensures ChunkStart(j + 1, chunk) == ChunkStart(j, chunk) + chunk
  {
  }

  lemma ChunksFit(items: nat, processors: nat, i: nat)
    requires i < processors
    ensures ChunkStart(i, items / processors) <= items
  {
    var q := items / processors;
    assert i * q <= processors * q;
  }

  /** The chunks follow one another from item 0 to the last item. */
  ghost predicate Consecutive(start: seq<nat>, count: seq<nat>, items: nat) {
    |start| == |count| > 0 && start[0] == 0
    && (forall j | 0 <= j < |start| - 1 :: start[j] + count[j] == start[j + 1])
    && start[|start| - 1] + count[|start| - 1] == items
  }

  ghost predicate InChunk(start: seq<nat>, count: seq<nat>, j: nat, item: nat) {
    j < |start| && j < |count| && start[j] <= item < start[j] + count[j]
  }

  lemma {:induction false} StartsGrow(start: seq<nat>, count: seq<nat>, items: nat, i: nat, j: nat)
    requires Consecutive(start, count, items) && i < j < |start|
    ensures start[i] + count[i] <= start[j]
  {
    if i + 1 < j {
      StartsGrow(start, count, items, i, j - 1);
    }
  }

  /** Every dataset item belongs to exactly one chunk. */
  lemma {:induction false} ChunksPartition(start: seq<nat>, count: seq<nat>, items: nat, item: nat)
    requires Consecutive(start, count, items) && item < items
    ensures exists j: nat :: InChunk(start, count, j, item) && forall k: nat | InChunk(start, count, k, item) :: k == j
  {
    var j := |start| - 1;
    while item < start[j]
      invariant 0 <= j < |start| && item < start[j] + count[j]
      decreases j
    {
      j := j - 1;
    }
    assert InChunk(start, count, j, item);
    forall k: nat | InChunk(start, count, k, item) ensures k == j {
      if k < j { StartsGrow(start, count, items, k, j); }
      if j < k { StartsGrow(start, count, items, j, k); }
    }
  }
}
