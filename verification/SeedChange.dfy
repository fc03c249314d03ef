/** cpu-miner.c: exactly when a change of the seed is harmless to the dataset rebuild. */
module SeedChange {
  import opened Barrier
  import opened DatasetRebuild

  /** What the protocol is for: every scan is sound, and no change of the seed is rebuilt for twice. */
  ghost predicate Good(st: State) {
    (forall t | 0 <= t < |st.miners| && st.miners[t].pc.Scanning? :: ScansSoundly(st, st.miners[t]))
    && Increasing(st.log, st.changes + 1)
  }

  /** The threads named can move one after the other. */
  predicate Playable(st: State, moves: seq<nat>)
    decreases |moves|
  {
    moves == [] || (CanMove(st, moves[0]) && Playable(MoveStep(st, moves[0]), moves[1..]))
  }

  function Play(st: State, moves: seq<nat>): State
    requires Playable(st, moves)
    decreases |moves|
  {
    if moves == [] then st else Play(MoveStep(st, moves[0]), moves[1..])
  }

  /** Some way for the threads to go on breaks the protocol, without any other change of the seed. */
  ghost predicate CanBreak(st: State) {
    exists moves: seq<nat> :: Playable(st, moves) && !Good(Play(st, moves))
  }

  lemma BreaksNow(st: State)
    requires !Good(st)
    ensures CanBreak(st)
  {
    assert Playable(st, []) && Play(st, []) == st;
  }

  lemma StepBreaks(st: State, t: nat)
    requires CanMove(st, t) && CanBreak(MoveStep(st, t))
    ensures CanBreak(st)
  {
    hide Good, MoveStep;
    var moves: seq<nat> :| Playable(MoveStep(st, t), moves) && !Good(Play(MoveStep(st, t), moves));
    var all := [t] + moves;
    assert all[1..] == moves;
    assert Playable(st, all) && Play(st, all) == Play(MoveStep(st, t), moves);
  }

  // ----- a settled state -----

  lemma SafeIsGood(st: State)
    requires Safe(st)
    ensures Good(st)
  {
    forall t | 0 <= t < |st.miners| && st.miners[t].pc.Scanning?
      ensures ScansSoundly(st, st.miners[t])
    {
      assert AtOk(st, t);
    }
  }

  lemma {:induction false} SafeForEver(st: State, moves: seq<nat>)
    requires Safe(st) && Playable(st, moves)
    ensures Good(Play(st, moves))
    decreases |moves|
  {
    hide Safe, Good, MoveStep;
    if moves == [] {
      SafeIsGood(st);
    } else {
      MoveKeeps(st, moves[0]);
      SafeForEver(MoveStep(st, moves[0]), moves[1..]);
    }
  }

  // ----- two threads past the barrier, and a seed that is not theirs -----

  /** Past the barrier, or let go by it. */
  predicate Past(st: State, t: nat)
    requires t < |st.miners| == |st.bar.threads|
  {
    var (pc, b) := (st.miners[t].pc, st.bar.threads[t]);
    if pc.AtBarrier? then b.where.Waiting? && Laggard(b, st.bar.epoch) else pc in {DestroyVm, Locking, Testing}
  }

  ghost predicate TwoOf(st: State, x: nat, u: nat) {
    x < |st.miners| && u < |st.miners| == |st.bar.threads| && x != u && Barrier.Inv(st.bar)
    && st.lock == if HoldsLock(st.miners[x].pc) then Held(x) else if HoldsLock(st.miners[u].pc) then Held(u) else Free
  }

  /** How far a thread is from setting the flag. */
  function Way(m: Miner, key: Seed): nat {
    match m.pc
    case AtBarrier => 14
    case DestroyVm => 13
    case Locking => 12
    case Testing => 11
    case Releasing => 10
    case Keying => 9
    case Building => 8
    case Unlocking => 7
    case CreateVm => 6
    case Check => if m.seed == key then 5 else 2
    case Scanning => 4
    case Fetch => 3
    case SetFlag => 1
    case Arriving => 0
  }

  /** The last rebuild was for no earlier change than that of `m`. */
  predicate Served(st: State, m: Miner) {
    st.log != [] && m.change <= st.log[|st.log| - 1].change
  }

  /** The rebuild by `m` spoils `m'`: it is for another seed, or for the same outdated one. */
  predicate Spoils(st: State, m: Miner, m': Miner) {
    m'.seed != m.seed || (m'.seed != st.work && m'.change <= m.change)
  }

  /** The dataset that is there spoils `m`. */
  predicate Spoilt(st: State, m: Miner) {
    st.dataset.Dataset? && st.dataset.key == st.key && (m.seed != st.key || (st.key != st.work && Served(st, m)))
  }

  ghost predicate Alone(st: State, u: nat) {
    u < |st.miners| == |st.bar.threads| && Barrier.Inv(st.bar)
    && st.lock == if HoldsLock(st.miners[u].pc) then Held(u) else Free
  }

  /** A thread that gets through without rebuilding scans with a key that is not its seed. */
  lemma {:induction false} WrongKey(st: State, u: nat)
    requires Alone(st, u) && (Past(st, u) || st.miners[u].pc in {Unlocking, CreateVm})
    requires !st.flag && st.dataset.Dataset? && st.dataset.key != st.miners[u].seed
    ensures CanBreak(st)
    decreases Way(st.miners[u], st.key)
  {
    hide CanBreak;
    var st' := MoveStep(st, u);
    if st.miners[u].pc.AtBarrier? {
      WakeKeeps(st.bar, u);
      WakeDecides(st.bar, u);
    }
    if st.miners[u].pc.CreateVm? {
      assert !ScansSoundly(st', st'.miners[u]);
      BreaksNow(st');
    } else {
      WrongKey(st', u);
    }
    StepBreaks(st, u);
  }

  /** A thread that finds the flag set again rebuilds for a change that has been served. */
  lemma {:induction false} SecondTake(st: State, u: nat)
    requires Alone(st, u) && Past(st, u) && st.flag && Served(st, st.miners[u])
    ensures CanBreak(st)
    decreases Way(st.miners[u], st.key)
  {
    hide CanBreak;
    var st' := MoveStep(st, u);
    if st.miners[u].pc.AtBarrier? {
      WakeKeeps(st.bar, u);
      WakeDecides(st.bar, u);
    }
    if st.miners[u].pc.Testing? {
      var n := |st.log|;
      assert st'.log[n - 1].change >= st'.log[n].change;
      BreaksNow(st');
    } else {
      SecondTake(st', u);
    }
    StepBreaks(st, u);
  }

  /** Thread `x` rebuilds, or has done so, and goes on to set the flag again; thread `u` is past the barrier. */
  ghost predicate Doomed(st: State, x: nat, u: nat) {
    TwoOf(st, x, u) && Past(st, u)
    && (st.miners[u].pc.Testing? ==> st.miners[x].pc in {CreateVm, Check, Scanning, Fetch, SetFlag, Arriving})
    && var (m, m') := (st.miners[x], st.miners[u]);
       match m.pc
       case Releasing => !st.flag && Spoils(st, m, m') && Served(st, m)
       case Keying => !st.flag && Spoils(st, m, m') && Served(st, m)
       case Building => !st.flag && Spoils(st, m, m') && Served(st, m) && st.key == m.seed
       case Unlocking => !st.flag && Spoilt(st, m')
       case CreateVm => !st.flag && Spoilt(st, m')
       case Check => !st.flag && Spoilt(st, m')
       case Scanning => !st.flag && Spoilt(st, m')
       case Fetch => !st.flag && Spoilt(st, m')
       case SetFlag => Served(st, m')
       case Arriving => st.flag && Served(st, m')
       case _ => Past(st, x) && if st.flag then Spoils(st, m, m') else Spoilt(st, m')
  }

  lemma DoomedBefore(st: State, x: nat, u: nat)
    requires Doomed(st, x, u) && st.miners[x].pc in {AtBarrier, DestroyVm, Locking, Testing}
    ensures CanMove(st, x) && Doomed(MoveStep(st, x), x, u)
    ensures Way(MoveStep(st, x).miners[x], MoveStep(st, x).key) < Way(st.miners[x], st.key)
  {
    if st.miners[x].pc.AtBarrier? {
      WakeKeeps(st.bar, x);
      WakeDecides(st.bar, x);
    }
  }

  lemma DoomedInside(st: State, x: nat, u: nat)
    requires Doomed(st, x, u) && st.miners[x].pc in {Releasing, Keying, Building, Unlocking}
    ensures CanMove(st, x) && Doomed(MoveStep(st, x), x, u)
    ensures Way(MoveStep(st, x).miners[x], MoveStep(st, x).key) < Way(st.miners[x], st.key)
  {
  }

  lemma DoomedAfter(st: State, x: nat, u: nat)
    requires Doomed(st, x, u) && st.miners[x].pc in {CreateVm, Check, Scanning, Fetch, SetFlag}
    requires !st.miners[x].pc.SetFlag? ==> st.miners[u].seed == st.key
    ensures CanMove(st, x) && Doomed(MoveStep(st, x), x, u)
    ensures Way(MoveStep(st, x).miners[x], MoveStep(st, x).key) < Way(st.miners[x], st.key)
  {
  }

  /** Then the protocol breaks: `u` scans with the wrong key, or rebuilds once more for the same change. */
  lemma {:induction false} DoomedBreaks(st: State, x: nat, u: nat)
    requires Doomed(st, x, u)
    ensures CanBreak(st)
    decreases Way(st.miners[x], st.key)
  {
    hide CanBreak;
    var m, m' := st.miners[x], st.miners[u];
    if m.pc in {CreateVm, Check, Scanning, Fetch} && m'.seed != st.key {
      WrongKey(st, u);
    } else if m.pc.Arriving? {
      SecondTake(st, u);
    } else {
      if m.pc in {AtBarrier, DestroyVm, Locking, Testing} {
        DoomedBefore(st, x, u);
      } else if m.pc in {Releasing, Keying, Building, Unlocking} {
        DoomedInside(st, x, u);
      } else {
        DoomedAfter(st, x, u);
      }
      hide Doomed, MoveStep;
      DoomedBreaks(MoveStep(st, x), x, u);
      StepBreaks(st, x);
    }
  }

  // ----- a change while threads are past the barrier -----

  /** The change finds thread `u` past the barrier: there is a thread to go with it. */
  lemma LateBreaks(st: State, s: Seed, u: nat)
    requires Safe(st) && |st.miners| >= 2 && Allowed(st, NewSeed(s), false) && u < |st.miners|
    requires StageOf(st).Idle? && st.key == st.work && Inside(st.miners[u], st.key)
    ensures CanBreak(SeedStep(st, s))
  {
    hide CanBreak;
    var st' := SeedStep(st, s);
    assert AtOk(st, u);
    if st.lock.Held? && st.lock.who != u {
      assert AtOk(st, st.lock.who);
      DoomedBreaks(st', st.lock.who, u);
    } else {
      var x := if u == 0 then 1 else 0;
      assert AtOk(st, x);
      if st.lock.Held? && st.miners[x].pc in {AtBarrier, DestroyVm, Locking} {
        DoomedBreaks(st', u, x);
      } else {
        DoomedBreaks(st', x, u);
      }
    }
  }

  lemma OpenBreaks(st: State, s: Seed)
    requires Safe(st) && |st.miners| >= 2 && Allowed(st, NewSeed(s), false)
    requires StageOf(st).Open? || StageOf(st).Rebuilding?
    ensures CanBreak(SeedStep(st, s))
  {
    hide CanBreak;
    var st' := SeedStep(st, s);
    var x := if st.lock.Held? then st.lock.who else 0;
    var u := if x == 0 then 1 else 0;
    assert AtOk(st, x) && AtOk(st, u);
    DoomedBreaks(st', x, u);
  }

  // ----- a change while threads are gathering -----

  predicate Gathers(m: Miner, b: Thread, st: State, was: Seed) {
    (m.pc.AtBarrier? <==> b.where.Waiting?)
    && match m.pc
       case Check => m.seed == st.key || m.seed == was || m.seed == st.work
       case SetFlag => m.seed != st.key && (m.seed == was || m.seed == st.work)
       case Arriving => m.seed != st.key && (m.seed == was || m.seed == st.work) && st.flag
       case AtBarrier =>
         m.seed != st.key && (m.seed == was || m.seed == st.work) && st.flag && Current(b, st.bar.epoch)
       case _ => m.pc in {Fetch, Scanning, Unlocking, CreateVm}
  }

  predicate GatherAt(st: State, t: nat, was: Seed, change: nat)
    requires t < |st.miners| == |st.bar.threads|
  {
    Gathers(st.miners[t], st.bar.threads[t], st, was)
    && (!Inside(st.miners[t], st.key) ==> st.key != st.work)
    && (Inside(st.miners[t], st.key) && st.miners[t].seed == was ==> st.miners[t].change == change)
    && (HoldsLock(st.miners[t].pc) <==> st.lock == Held(t))
  }

  /** All threads are on their way to the barrier, where thread `z` will come with the seed `was`. */
  ghost predicate Gathering(st: State, z: nat, was: Seed, change: nat) {
    |st.miners| == |st.bar.threads| >= 2 && Barrier.Inv(st.bar) && was != st.key && was != st.work
    && (st.lock.Held? ==> st.lock.who < |st.miners|)
    && z < |st.miners| && Inside(st.miners[z], st.key) && st.miners[z].seed == was
    && forall t: nat | t < |st.miners| :: GatherAt(st, t, was, change)
  }

  function Distance(m: Miner, key: Seed): nat {
    match m.pc
    case Unlocking => 7
    case CreateVm => 6
    case Check => if m.seed == key then 5 else 2
    case Scanning => 4
    case Fetch => 3
    case SetFlag => 1
    case _ => 0
  }

  /** The last thread opens the barrier, and then two of them do not agree. */
  lemma OpenedBreaks(st: State, t: nat, z: nat, was: Seed, change: nat)
    requires Gathering(st, z, was, change) && t < |st.miners| && st.miners[t].pc.Arriving?
    requires !Arrive(st.bar, t).threads[t].where.Waiting?
    ensures CanMove(st, t) && CanBreak(MoveStep(st, t))
  {
    hide CanBreak;
    assert GatherAt(st, t, was, change) && GatherAt(st, z, was, change);
    var st' := MoveStep(st, t);
    ArriveKeeps(st.bar, t);
    AllOthersCurrent(st.bar.threads, t, st.bar.epoch);
    var u := if z != t then z else if t == 0 then 1 else 0;
    assert GatherAt(st, u, was, change);
    assert st.lock.Held? ==> GatherAt(st, st.lock.who, was, change);
    DoomedBreaks(st', t, u);
  }

  /** A step that writes the thread's own record, and no shared variable but the flag or the lock. */
  lemma GatherOwn(st: State, t: nat, st': State, z: nat, was: Seed, change: nat)
    requires Gathering(st, z, was, change) && t < |st.miners|
    requires |st'.miners| == |st.miners|
    requires st' == Put(st.(flag := st'.flag, lock := st'.lock), t, st'.miners[t])
    requires st.flag ==> st'.flag
    requires st'.lock == st.lock || (st.lock == Held(t) && st'.lock == Free)
    requires GatherAt(st', t, was, change)
    requires t == z ==> Inside(st'.miners[t], st.key) && st'.miners[t].seed == was
    ensures Gathering(st', z, was, change)
  {
    forall u: nat | u < |st'.miners| ensures GatherAt(st', u, was, change) {
      assert GatherAt(st, u, was, change);
    }
  }

  /** A step on the way to the barrier, but not to its end. */
  lemma GatherStep(st: State, t: nat, z: nat, was: Seed, change: nat)
    requires Gathering(st, z, was, change) && t < |st.miners| && !(st.miners[t].pc in {AtBarrier, Arriving})
    ensures CanMove(st, t) && Gathering(MoveStep(st, t), z, was, change)
    ensures |MoveStep(st, t).miners| == |st.miners|
    ensures forall u | 0 <= u < t :: MoveStep(st, t).miners[u] == st.miners[u]
    ensures Distance(MoveStep(st, t).miners[t], MoveStep(st, t).key) < Distance(st.miners[t], st.key)
  {
    assert GatherAt(st, t, was, change);
    hide Gathering;
    GatherOwn(st, t, MoveStep(st, t), z, was, change);
  }

  /** Arriving there, but not last. */
  lemma GatherArrive(st: State, t: nat, z: nat, was: Seed, change: nat)
    requires Gathering(st, z, was, change) && t < |st.miners| && st.miners[t].pc.Arriving?
    requires Arrive(st.bar, t).threads[t].where.Waiting?
    ensures CanMove(st, t) && Gathering(MoveStep(st, t), z, was, change)
    ensures |MoveStep(st, t).miners| == |st.miners| && MoveStep(st, t).miners[t].pc.AtBarrier?
    ensures forall u | 0 <= u < t :: MoveStep(st, t).miners[u] == st.miners[u]
  {
    assert GatherAt(st, t, was, change);
    var st' := MoveStep(st, t);
    ArriveKeeps(st.bar, t);
    assert ThreadOk(st.bar.threads[t], st.bar.epoch);
    forall u: nat | u < |st'.miners| ensures GatherAt(st', u, was, change) {
      assert GatherAt(st, u, was, change);
    }
  }

  /** One thread after the other goes to the barrier, until it opens. */
  lemma {:induction false} GatheringBreaks(st: State, j: nat, z: nat, was: Seed, change: nat)
    requires Gathering(st, z, was, change) && j <= |st.miners|
    requires forall t | 0 <= t < j :: st.miners[t].pc.AtBarrier?
    ensures CanBreak(st)
    decreases |st.miners| - j, if j < |st.miners| then Distance(st.miners[j], st.key) else 0
  {
    hide CanBreak, Distance, MoveStep;
    if j == |st.miners| {
      forall t: nat | t < |st.bar.threads| ensures Current(st.bar.threads[t], st.bar.epoch) {
        assert GatherAt(st, t, was, change);
      }
      AllCurrentCount(st.bar.threads, st.bar.epoch);
      assert false;
    } else if st.miners[j].pc.AtBarrier? {
      GatheringBreaks(st, j + 1, z, was, change);
    } else if !st.miners[j].pc.Arriving? {
      GatherStep(st, j, z, was, change);
      GatheringBreaks(MoveStep(st, j), j, z, was, change);
      StepBreaks(st, j);
    } else if Arrive(st.bar, j).threads[j].where.Waiting? {
      GatherArrive(st, j, z, was, change);
      GatheringBreaks(MoveStep(st, j), j + 1, z, was, change);
      StepBreaks(st, j);
    } else {
      OpenedBreaks(st, j, z, was, change);
      StepBreaks(st, j);
    }
  }

  /** The change finds thread `z` on its way to the barrier. */
  lemma NoticedBreaks(st: State, s: Seed, z: nat)
    requires Safe(st) && |st.miners| >= 2 && Allowed(st, NewSeed(s), false) && z < |st.miners|
    requires StageOf(st).Idle? && st.key != st.work && Inside(st.miners[z], st.key)
    requires s == st.key ==> forall t | 0 <= t < |st.miners| :: Inside(st.miners[t], st.key)
    ensures CanBreak(SeedStep(st, s))
  {
    hide CanBreak;
    var st' := SeedStep(st, s);
    assert AtOk(st, z);
    forall t: nat | t < |st'.miners| ensures GatherAt(st', t, st.work, st.changes) {
      assert AtOk(st, t);
    }
    GatheringBreaks(st', 0, z, st.work, st.changes);
  }

  // ----- a change back to the seed of the dataset -----

  predicate StaysAt(st: State, t: nat)
    requires t < |st.miners| == |st.bar.threads|
  {
    var (m, b) := (st.miners[t], st.bar.threads[t]);
    (m.pc.AtBarrier? <==> b.where.Waiting?)
    && (HoldsLock(m.pc) <==> st.lock == Held(t))
    && match m.pc
       case Fetch => m.vm == Vm(|st.log|, st.key)
       case Check => m.vm == Vm(|st.log|, st.key)
       case Scanning => m.vm == Vm(|st.log|, st.key) && m.seed == st.key
       case SetFlag => m.seed != st.key
       case Arriving => m.seed != st.key
       case AtBarrier => m.seed != st.key && Current(b, st.bar.epoch)
       case Unlocking => m.seed == st.key
       case CreateVm => m.seed == st.key
       case _ => false
  }

  /** The threads that noticed the other seed stay at the barrier, because thread `o` never comes. */
  ghost predicate Stays(st: State, o: nat) {
    |st.miners| == |st.bar.threads| && Barrier.Inv(st.bar) && st.work == st.key
    && st.log != [] && st.dataset == Dataset(|st.log|, st.key) && Increasing(st.log, st.changes + 1)
    && (st.lock.Held? ==> st.lock.who < |st.miners|)
    && o < |st.miners| && !Inside(st.miners[o], st.key)
    && forall t: nat | t < |st.miners| :: StaysAt(st, t)
  }

  lemma StaysShared(st: State, t: nat, st': State, o: nat)
    requires Stays(st, o) && t < |st.miners| && Barrier.Inv(st'.bar) && |st'.bar.threads| == |st.bar.threads|
    requires |st'.miners| == |st.miners| && st'.bar.epoch == st.bar.epoch
    requires st' == Put(st.(flag := st'.flag, lock := st'.lock, bar := st'.bar), t, st'.miners[t])
    requires forall u | 0 <= u < |st.miners| && u != t :: st'.bar.threads[u] == st.bar.threads[u]
    requires st'.lock == st.lock || (st.lock == Held(t) && st'.lock == Free)
    requires StaysAt(st', t) && (t == o ==> !Inside(st'.miners[t], st.key))
    ensures Stays(st', o)
  {
    forall u: nat | u < |st'.miners| ensures StaysAt(st', u) {
      assert StaysAt(st, u);
    }
  }

  lemma StaysAtBarrier(st: State, t: nat, o: nat)
    requires Stays(st, o) && CanMove(st, t) && st.miners[t].pc in {Arriving, AtBarrier}
    ensures Stays(MoveStep(st, t), o)
  {
    assert StaysAt(st, t) && StaysAt(st, o);
    var st' := MoveStep(st, t);
    if st.miners[t].pc.AtBarrier? {
      WakeDecides(st.bar, t);
      assert st' == st;
    } else {
      ArriveKeeps(st.bar, t);
      assert ThreadOk(st.bar.threads[t], st.bar.epoch);
      if !st'.bar.threads[t].where.Waiting? {
        AllOthersCurrent(st.bar.threads, t, st.bar.epoch);
        assert false;
      }
      hide Stays;
      StaysShared(st, t, st', o);
    }
  }

  lemma StaysKeeps(st: State, t: nat, o: nat)
    requires Stays(st, o) && CanMove(st, t)
    ensures Stays(MoveStep(st, t), o)
  {
    if st.miners[t].pc in {Arriving, AtBarrier} {
      StaysAtBarrier(st, t, o);
    } else {
      assert StaysAt(st, t);
      var st' := MoveStep(st, t);
      hide Stays, Arrive, Wake;
      StaysShared(st, t, st', o);
    }
  }

  lemma {:induction false} StaysForEver(st: State, moves: seq<nat>, o: nat)
    requires Stays(st, o) && Playable(st, moves)
    ensures Good(Play(st, moves))
    decreases |moves|
  {
    hide MoveStep;
    if moves == [] {
      forall t | 0 <= t < |st.miners| && st.miners[t].pc.Scanning?
        ensures ScansSoundly(st, st.miners[t])
      {
        assert StaysAt(st, t);
      }
    } else {
      StaysKeeps(st, moves[0], o);
      StaysForEver(MoveStep(st, moves[0]), moves[1..], o);
    }
  }

  lemma ReturnIsHarmless(st: State, o: nat)
    requires Safe(st) && Allowed(st, NewSeed(st.key), false) && o < |st.miners| && !Inside(st.miners[o], st.key)
    ensures !CanBreak(SeedStep(st, st.key))
  {
    var st' := SeedStep(st, st.key);
    assert AtOk(st, o);
    forall t: nat | t < |st'.miners| ensures StaysAt(st', t) {
      assert AtOk(st, t);
    }
    forall moves: seq<nat> | Playable(st', moves) ensures Good(Play(st', moves)) {
      StaysForEver(st', moves, o);
    }
  }

  // ----- exactly when -----

  /** With two threads or more, a change of the seed can break the protocol if and only if some thread is on its
      way through the rebuild, and, when the seed goes back to that of the dataset, if all threads are. */
  lemma ChangeBreaks(st: State, s: Seed)
    requires Safe(st) && |st.miners| >= 2 && Allowed(st, NewSeed(s), false)
    ensures CanBreak(SeedStep(st, s)) <==>
              !Settled(st) && (s == st.key ==> forall t | 0 <= t < |st.miners| :: Inside(st.miners[t], st.key))
  {
    hide CanBreak, Safe;
    if Settled(st) {
      SeedKeeps(st, s);
      var st' := SeedStep(st, s);
      forall moves: seq<nat> | Playable(st', moves) ensures Good(Play(st', moves)) {
        SafeForEver(st', moves);
      }
      NoWayBreaks(st');
    } else {
      var z :| 0 <= z < |st.miners| && Inside(st.miners[z], st.key);
      if !StageOf(st).Idle? {
        AllInside(st);
        OpenBreaks(st, s);
      } else if st.key == st.work {
        LateBreaks(st, s, z);
      } else if s == st.key && exists o | 0 <= o < |st.miners| :: !Inside(st.miners[o], st.key) {
        var o :| 0 <= o < |st.miners| && !Inside(st.miners[o], st.key);
        ReturnIsHarmless(st, o);
      } else {
        NoticedBreaks(st, s, z);
      }
    }
  }

  lemma NoWayBreaks(st: State)
    requires forall moves: seq<nat> | Playable(st, moves) :: Good(Play(st, moves))
    ensures !CanBreak(st)
  {
  }

  lemma AllInside(st: State)
    requires Safe(st) && !StageOf(st).Idle?
    ensures forall t | 0 <= t < |st.miners| :: Inside(st.miners[t], st.key)
  {
    forall t | 0 <= t < |st.miners| ensures Inside(st.miners[t], st.key) {
      assert AtOk(st, t);
    }
  }

  /** In every calm run that applies to every state. */
  lemma SeedTooSoon(run: seq<State>, actions: seq<Action>, i: nat, s: Seed)
    requires DatasetRebuild.IsRun(run, actions, true) && i < |run|
    requires |run[i].miners| >= 2 && Allowed(run[i], NewSeed(s), false)
    ensures CanBreak(SeedStep(run[i], s)) <==>
              !Settled(run[i]) &&
              (s == run[i].key ==> forall t | 0 <= t < |run[i].miners| :: Inside(run[i].miners[t], run[i].key))
  {
    hide CanBreak, Safe, Settled;
    RunSafe(run, actions, i);
    ChangeBreaks(run[i], s);
  }

  // ----- a single thread -----

  /** The thread's own record against the dataset and the rebuilds so far. */
  predicate LoneAt(m: Miner, st: State) {
    var n := |st.log|;
    match m.pc
    case Fetch => m.vm == VmAfter(n, st.key)
    case Check =>
      m.vm == VmAfter(n, st.key) && Increasing(st.log, if m.seed == st.key then m.change + 1 else m.change)
    case SetFlag => Increasing(st.log, m.change)
    case Arriving => Increasing(st.log, m.change) && st.flag
    case DestroyVm => Increasing(st.log, m.change) && st.flag
    case Locking => Increasing(st.log, m.change) && st.flag
    case Testing => Increasing(st.log, m.change) && st.flag
    case Releasing => n > 0 && Increasing(st.log, m.change + 1)
    case Keying => n > 0 && Increasing(st.log, m.change + 1)
    case Building => n > 0 && m.seed == st.key
    case Unlocking => n > 0 && m.seed == st.key
    case CreateVm => n > 0 && m.seed == st.key
    case Scanning => n > 0 && m.seed == st.key && m.vm == VmAfter(n, st.key)
    case AtBarrier => false
  }

  /** What holds of a single thread, however the seed changes. */
  predicate Lone(st: State) {
    |st.miners| == 1 == |st.bar.threads| && st.bar.threads[0].where.Outside? && st.work != ZERO
    && Increasing(st.log, st.changes + 1)
    && var m, changing := st.miners[0], st.miners[0].pc.Releasing? || st.miners[0].pc.Keying?;
       && m.change <= st.changes && (m.change == st.changes ==> m.seed == st.work)
       && (m.pc.Fetch? || m.seed != ZERO)
       && (changing || (st.key == ZERO <==> st.log == []))
       && (changing || st.key == st.work || Increasing(st.log, st.changes))
       && (changing || m.pc.Building? || st.dataset == DatasetAfter(|st.log|, st.key))
       && LoneAt(m, st)
  }

  lemma LoneOwn(st: State)
    requires Lone(st) && CanMove(st, 0)
    requires st.miners[0].pc in {Fetch, Check, SetFlag, DestroyVm, Locking, Unlocking, CreateVm, Scanning}
    ensures Lone(MoveStep(st, 0))
  {
    hide Arrive, Wake;
  }

  lemma LoneRebuild(st: State)
    requires Lone(st) && CanMove(st, 0) && Rebuilds(st.miners[0].pc)
    ensures Lone(MoveStep(st, 0))
  {
    hide Arrive, Wake;
  }

  /** The barrier opens for a single thread at once. */
  lemma LoneArrive(st: State)
    requires Lone(st) && CanMove(st, 0) && st.miners[0].pc.Arriving?
    ensures Lone(MoveStep(st, 0))
  {
    hide Wake, Increasing;
  }

  lemma LoneTake(st: State)
    requires Lone(st) && CanMove(st, 0) && st.miners[0].pc.Testing?
    ensures Lone(MoveStep(st, 0))
  {
    hide Arrive, Wake;
  }

  lemma LoneStep(st: State)
    requires Lone(st) && CanMove(st, 0)
    ensures Lone(MoveStep(st, 0))
  {
    hide MoveStep;
    match st.miners[0].pc
    case Arriving => LoneArrive(st);
    case Testing => LoneTake(st);
    case Releasing => LoneRebuild(st);
    case Keying => LoneRebuild(st);
    case Building => LoneRebuild(st);
    case _ => LoneOwn(st);
  }

  lemma LoneSeed(st: State, s: Seed)
    requires Lone(st) && Allowed(st, NewSeed(s), false)
    ensures Lone(SeedStep(st, s))
  {
  }

  lemma {:induction false} LoneRun(run: seq<State>, actions: seq<Action>, i: nat)
    requires DatasetRebuild.IsRun(run, actions, false) && i < |run| && |run[0].miners| == 1
    ensures Lone(run[i])
  {
    hide Lone, MoveStep;
    if i == 0 {
      var threads: nat, work: Seed :| threads > 0 && work != ZERO && run[0] == Start(threads, work);
      LoneStart(work);
    } else {
      LoneRun(run, actions, i - 1);
      assert TakesStep(run[i - 1], actions[i - 1], run[i], false);
      LoneSize(run[i - 1]);
      match actions[i - 1]
      case Move(t) => LoneStep(run[i - 1]);
      case NewSeed(s) => LoneSeed(run[i - 1], s);
    }
  }

  lemma LoneSize(st: State)
    requires Lone(st)
    ensures |st.miners| == 1
  {
  }

  lemma LoneStart(work: Seed)
    requires work != ZERO
    ensures Lone(Start(1, work))
  {
  }

  /** A single thread never goes wrong, whenever and however often the seed changes. */
  lemma LoneThreadIsGood(run: seq<State>, actions: seq<Action>, i: nat)
    requires DatasetRebuild.IsRun(run, actions, false) && i < |run| && |run[0].miners| == 1
    ensures Good(run[i])
  {
    LoneRun(run, actions, i);
  }
}
