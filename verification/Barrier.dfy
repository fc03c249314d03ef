/** pthread_barrier.c: the phase-counter barrier, and what it guarantees over every run. */
module Barrier {
  import opened Words

  const MODULUS: nat := 0x1_0000_0000

  /** What entering the barrier does to count and phase, and whether the caller is the serial thread. */
  function EnterStep(limit: nat, count: nat, phase: word): (nat, word, bool) {
    if count + 1 >= limit then (0, Add(phase, 1), true) else (count + 1, phase, false)
  }

  // ----- the code: what one thread does while it holds the mutex -----

  /** pthread_barrier_t, without the mutex and the condition variable. */
  class BarrierT {
    var limit: word
    var count: word
    var phase: word

    constructor ()
      ensures limit == 0 && count == 0 && phase == 0
    {
      limit, count, phase := 0, 0, 0;
    }

    /** pthread_barrier_init. */
    method Init(threads: word) returns (rc: int)
      modifies this
      ensures rc == if threads == 0 then -1 else 0
      ensures rc == 0 ==> limit == threads && count == 0 && phase == 0
      ensures rc != 0 ==> limit == old(limit) && count == old(count) && phase == old(phase)
    {
      if threads == 0 {
        return -1;
      }
      limit, count, phase := threads, 0, 0;
      return 0;
    }

    /** pthread_barrier_wait up to its return as the serial thread, or up to pthread_cond_wait. */
    method Enter() returns (serial: bool, seen: word)
      requires count < limit
      modifies this`count, this`phase
      ensures (count, phase, serial) == EnterStep(limit, old(count), old(phase))
      ensures seen == phase
    {
      count := Add(count, 1);
      if count >= limit {
        phase := Add(phase, 1);
        count := 0;
        return true, phase;
      }
      return false, phase;
    }

    /** The loop test after pthread_cond_wait returns, run by thread `t` of a system in any state that the
        invariant allows: the waiter leaves exactly when the phase it waits for has ended. */
    method Recheck(seen: word, ghost s: Sys, ghost t: nat) returns (leaves: bool)
      requires Inv(s) && s.phase == phase && t < |s.threads| && s.threads[t].where == Waiting(seen)
      ensures leaves <==> Laggard(s.threads[t], s.epoch)
      ensures !leaves <==> Current(s.threads[t], s.epoch)
      ensures leaves ==> Wake(s, t).threads[t] == Thread(Outside, s.threads[t].results + [false])
    {
      WakeDecides(s, t);
      leaves := !(seen == phase);
    }
  }

  // ----- runs: `limit` threads that use the barrier for ever -----

  datatype Where = Outside | Waiting(seen: word)

  /** A thread, with the results of the waits it has returned from: true for PTHREAD_BARRIER_SERIAL_THREAD. */
  datatype Thread = Thread(where: Where, results: seq<bool>)

  /** The shared fields, the threads, and how many phases have ended in all, which the code never stores. */
  datatype Sys = Sys(count: nat, phase: word, threads: seq<Thread>, epoch: nat)

  function Entered(t: Thread): nat {
    |t.results| + if t.where.Waiting? then 1 else 0
  }

  function InitSys(limit: nat): Sys {
    Sys(0, 0, seq(limit, _ => Thread(Outside, [])), 0)
  }

  /** Thread `t` calls pthread_barrier_wait. */
  function Arrive(s: Sys, t: nat): Sys
    requires t < |s.threads|
  {
    var th := s.threads[t];
    var (count, phase, serial) := EnterStep(|s.threads|, s.count, s.phase);
    if serial then
      Sys(count, phase, s.threads[t := Thread(Outside, th.results + [true])], s.epoch + 1)
    else
      Sys(count, phase, s.threads[t := th.(where := Waiting(phase))], s.epoch)
  }

  /** Thread `t` comes out of pthread_cond_wait, woken or not. */
  function Wake(s: Sys, t: nat): Sys
    requires t < |s.threads| && s.threads[t].where.Waiting?
  {
    var th := s.threads[t];
    if th.where.seen == s.phase then s
    else s.(threads := s.threads[t := Thread(Outside, th.results + [false])])
  }

  /** One step of the system: any thread outside may arrive, any waiter may wake. */
  ghost predicate Next(s: Sys, s': Sys) {
    exists t: nat :: StepOf(s, s', t)
  }

  ghost predicate StepOf(s: Sys, s': Sys, t: nat) {
    t < |s.threads| &&
    if s.threads[t].where.Outside? then s' == Arrive(s, t) else s' == Wake(s, t)
  }

  /** Waiting for the phase that has not ended yet. */
  predicate Current(t: Thread, epoch: nat) {
    t.where.Waiting? && |t.results| == epoch
  }

  /** Still inside a wait whose phase has ended. */
  predicate Laggard(t: Thread, epoch: nat) {
    t.where.Waiting? && |t.results| + 1 == epoch
  }

  function CountCurrent(ts: seq<Thread>, epoch: nat): nat {
    if ts == [] then 0
    else CountCurrent(ts[..|ts| - 1], epoch) + if Current(ts[|ts| - 1], epoch) then 1 else 0
  }

  /** A thread outside has left every ended phase; a waiter lags by at most one phase, and the
      phase number it remembers tells which. */
  predicate ThreadOk(t: Thread, epoch: nat) {
    match t.where
    case Outside => |t.results| == epoch
    case Waiting(seen) =>
      (Current(t, epoch) || Laggard(t, epoch)) && seen == |t.results| % MODULUS
  }

  /** Thread `t` was the serial thread of phase `k`. */
  predicate SerialAt(ts: seq<Thread>, t: nat, k: nat) {
    t < |ts| && k < |ts[t].results| && ts[t].results[k]
  }

  ghost predicate OneSerial(ts: seq<Thread>, k: nat) {
    exists t: nat :: SerialAt(ts, t, k) && forall u: nat | SerialAt(ts, u, k) :: u == t
  }

  ghost predicate Inv(s: Sys) {
    s.count < |s.threads|
    && s.phase == s.epoch % MODULUS
    && s.count == CountCurrent(s.threads, s.epoch)
    && (forall t: nat | t < |s.threads| :: ThreadOk(s.threads[t], s.epoch))
    && (forall k: nat | k < s.epoch :: OneSerial(s.threads, k))
  }

  // ----- counting the waiters -----

  lemma {:induction false} CountUpdate(ts: seq<Thread>, t: nat, x: Thread, epoch: nat)
    requires t < |ts|
    ensures CountCurrent(ts[t := x], epoch) ==
            CountCurrent(ts, epoch) - (if Current(ts[t], epoch) then 1 else 0) + (if Current(x, epoch) then 1 else 0)
  {
    var n := |ts| - 1;
    if t == n {
      assert ts[t := x][..n] == ts[..n];
    } else {
      assert ts[t := x][..n] == ts[..n][t := x];
      CountUpdate(ts[..n], t, x, epoch);
    }
  }

  lemma {:induction false} CountBound(ts: seq<Thread>, epoch: nat)
    ensures CountCurrent(ts, epoch) <= |ts|
    ensures CountCurrent(ts, epoch) == |ts| ==> forall i | 0 <= i < |ts| :: Current(ts[i], epoch)
  {
    if ts != [] {
      CountBound(ts[..|ts| - 1], epoch);
    }
  }

  /** When all but one wait and `t` does not, every other thread waits. */
  lemma AllOthersCurrent(ts: seq<Thread>, t: nat, epoch: nat)
    requires t < |ts| && !Current(ts[t], epoch) && CountCurrent(ts, epoch) == |ts| - 1
    ensures forall i | 0 <= i < |ts| && i != t :: Current(ts[i], epoch)
  {
    var x := Thread(Waiting(0), seq(epoch, _ => false));
    CountUpdate(ts, t, x, epoch);
    CountBound(ts[t := x], epoch);
    forall i | 0 <= i < |ts| && i != t ensures Current(ts[i], epoch) {
      assert ts[t := x][i] == ts[i];
    }
  }

  lemma {:induction false} CountNone(ts: seq<Thread>, epoch: nat)
    requires forall i | 0 <= i < |ts| :: !Current(ts[i], epoch)
    ensures CountCurrent(ts, epoch) == 0
  {
    if ts != [] {
      CountNone(ts[..|ts| - 1], epoch);
    }
  }

  // ----- the invariant -----

  lemma InitHolds(limit: nat)
    requires limit > 0
    ensures Inv(InitSys(limit))
  {
    CountNone(InitSys(limit).threads, 0);
  }

  /** A new result on one thread's list keeps the serial threads of the phases before it. */
  lemma SerialKept(ts: seq<Thread>, t: nat, x: Thread, k: nat)
    requires t < |ts| && ts[t].results <= x.results
    requires forall j | |ts[t].results| <= j < |x.results| :: j == k ==> !x.results[j]
    requires OneSerial(ts, k)
    ensures OneSerial(ts[t := x], k)
  {
    var u: nat :| SerialAt(ts, u, k) && forall v: nat | SerialAt(ts, v, k) :: v == u;
    var ts' := ts[t := x];
    assert SerialAt(ts', u, k);
    forall v: nat | SerialAt(ts', v, k) ensures v == u {
      assert SerialAt(ts, v, k);
    }
  }

  lemma ArriveKeeps(s: Sys, t: nat)
    requires Inv(s) && t < |s.threads| && s.threads[t].where.Outside?
    ensures Inv(Arrive(s, t))
  {
    var s' := Arrive(s, t);
    var th := s.threads[t];
    if s.count + 1 >= |s.threads| {
      AllOthersCurrent(s.threads, t, s.epoch);
      CountNone(s'.threads, s'.epoch);
      forall k: nat | k < s'.epoch ensures OneSerial(s'.threads, k) {
        if k < s.epoch {
          SerialKept(s.threads, t, s'.threads[t], k);
        } else {
          assert SerialAt(s'.threads, t, k);
          assert forall u: nat | SerialAt(s'.threads, u, k) :: u == t;
        }
      }
    } else {
      CountUpdate(s.threads, t, th.(where := Waiting(s.phase)), s.epoch);
      forall k: nat | k < s'.epoch ensures OneSerial(s'.threads, k) {
        SerialKept(s.threads, t, s'.threads[t], k);
      }
    }
  }

  /** A waiter leaves exactly when its phase has ended: 2^32 phases never pass it by. */
  lemma WakeDecides(s: Sys, t: nat)
    requires Inv(s) && t < |s.threads| && s.threads[t].where.Waiting?
    ensures Wake(s, t) == s <==> Current(s.threads[t], s.epoch)
    ensures Wake(s, t) != s <==> Laggard(s.threads[t], s.epoch)
  {
    var th := s.threads[t];
    assert ThreadOk(th, s.epoch);
    if Laggard(th, s.epoch) {
      assert th.where.seen == (s.epoch - 1) % MODULUS;
      assert th.where.seen != s.phase;
      assert Wake(s, t).threads[t].where == Outside;
    }
  }

  lemma WakeKeeps(s: Sys, t: nat)
    requires Inv(s) && t < |s.threads| && s.threads[t].where.Waiting?
    ensures Inv(Wake(s, t))
  {
    WakeDecides(s, t);
    var s' := Wake(s, t);
    if s' != s {
      var x := s'.threads[t];
      CountUpdate(s.threads, t, x, s.epoch);
      forall k: nat | k < s'.epoch ensures OneSerial(s'.threads, k) {
        SerialKept(s.threads, t, x, k);
      }
    }
  }

  lemma NextKeeps(s: Sys, s': Sys)
    requires Inv(s) && Next(s, s')
    ensures Inv(s')
  {
    var t: nat :| StepOf(s, s', t);
    if s.threads[t].where.Outside? {
      ArriveKeeps(s, t);
    } else {
      WakeKeeps(s, t);
    }
  }

  // ----- what every run guarantees -----

  ghost predicate IsRun(run: seq<Sys>, limit: nat) {
    |run| > 0 && run[0] == InitSys(limit) && forall i | 0 <= i < |run| - 1 :: Next(run[i], run[i + 1])
  }

  lemma {:induction false} RunKeeps(run: seq<Sys>, limit: nat, i: nat)
    requires IsRun(run, limit) && limit > 0 && i < |run|
    ensures Inv(run[i]) && |run[i].threads| == limit
  {
    if i == 0 {
      InitHolds(limit);
    } else {
      RunKeeps(run, limit, i - 1);
      NextKeeps(run[i - 1], run[i]);
    }
  }

  /** No thread has returned from its k-th wait unless every thread has entered its own k-th wait. */
  lemma NobodyLeavesEarly(run: seq<Sys>, limit: nat, i: nat, t: nat, u: nat)
    requires IsRun(run, limit) && i < |run| && t < limit && u < limit
    ensures |run[i].threads| == limit
    ensures |run[i].threads[t].results| <= Entered(run[i].threads[u])
  {
    RunKeeps(run, limit, i);
    assert ThreadOk(run[i].threads[t], run[i].epoch) && ThreadOk(run[i].threads[u], run[i].epoch);
  }

  /** Of the results of the k-th wait exactly one is the serial one, as soon as anyone has returned from it. */
  lemma ExactlyOneSerial(run: seq<Sys>, limit: nat, i: nat, t: nat, k: nat)
    requires IsRun(run, limit) && i < |run| && t < limit
    requires |run[i].threads| == limit && k < |run[i].threads[t].results|
    ensures OneSerial(run[i].threads, k)
  {
    RunKeeps(run, limit, i);
    assert ThreadOk(run[i].threads[t], run[i].epoch);
  }

  /** Someone can always move: a thread is outside, or a waiter will leave when it looks. */
  lemma NeverStuck(run: seq<Sys>, limit: nat, i: nat)
    requires IsRun(run, limit) && i < |run| && limit > 0
    ensures exists t: nat :: t < |run[i].threads| &&
              (run[i].threads[t].where.Outside? || Wake(run[i], t) != run[i])
  {
    RunKeeps(run, limit, i);
    var s := run[i];
    if forall t: nat | t < |s.threads| :: Current(s.threads[t], s.epoch) {
      AllCurrentCount(s.threads, s.epoch);
      assert false;
    }
    var t: nat :| t < |s.threads| && !Current(s.threads[t], s.epoch);
    assert ThreadOk(s.threads[t], s.epoch);
    if s.threads[t].where.Waiting? {
      WakeDecides(s, t);
    }
  }

  lemma {:induction false} AllCurrentCount(ts: seq<Thread>, epoch: nat)
    requires forall t: nat | t < |ts| :: Current(ts[t], epoch)
    ensures CountCurrent(ts, epoch) == |ts|
  {
    if ts != [] {
      AllCurrentCount(ts[..|ts| - 1], epoch);
    }
  }
}
