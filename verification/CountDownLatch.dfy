/**
 * The latch of easy_net/base/countdown_latch.h as interleaved steps. The counter is decremented
 * without the mutex; the test of the waiter and its parking are two steps under the mutex.
 */
module CountDownLatch {

  datatype Pc =
    | Idle
    | Loading              // CountDown: about to load the counter
    | Loaded(old_c: int)   // CountDown: about to compare and exchange
    | ToNotify             // CountDown: brought the counter to 0, about to lock and notify
    | WaitStart            // Wait: about to test without the lock
    | WantLock             // Wait: about to take the lock, also after a wakeup
    | Checking             // Wait: holds the lock, about to test
    | Checked              // Wait: holds the lock, saw a non-zero counter, about to park
    | Parked               // Wait: waiting on the condition variable
    | Returned             // Wait: returned

  datatype Latch = Latch(
    count: int,
    lock: int,                 // the thread that holds the mutex, or -1
    threads: map<nat, Pc>,
    notified: bool)            // notify_all has been called

  datatype Step = CallCountDown(t: nat) | CallWait(t: nat) | Move(t: nat) | Spurious(t: nat)

  predicate Enabled(l: Latch, s: Step) {
    s.t in l.threads &&
    var pc := l.threads[s.t];
    match s
    case CallCountDown(_) => pc.Idle?
    case CallWait(_) => pc.Idle?
    case Spurious(_) => pc.Parked?
    case Move(_) =>
      match pc
      case Idle => false
      case Parked => false
      case Returned => false
      case WantLock => l.lock == -1
      case ToNotify => l.lock == -1
      case _ => true
  }

  function At(l: Latch, t: nat, pc: Pc): Latch {
    l.(threads := l.threads[t := pc])
  }

  /** notify_all: every parked thread goes for the lock again. */
  function WakeAll(ts: map<nat, Pc>): map<nat, Pc> {
    map t | t in ts :: if ts[t].Parked? then WantLock else ts[t]
  }

  function Next(l: Latch, s: Step): Latch
    requires Enabled(l, s)
  {
    var t := s.t;
    match s
    case CallCountDown(_) => At(l, t, Loading)
    case CallWait(_) => At(l, t, WaitStart)
    case Spurious(_) => At(l, t, WantLock)
    case Move(_) =>
      match l.threads[t]
      case Loading => At(l, t, Loaded(l.count))
      case Loaded(c) =>
        if c <= 0 then At(l, t, Idle)
        else if l.count != c then At(l, t, Loading)
        else At(l.(count := c - 1), t, if c == 1 then ToNotify else Idle)
      case ToNotify => l.(threads := WakeAll(l.threads[t := Idle]), notified := true)
      case WaitStart => At(l, t, if l.count == 0 then Returned else WantLock)
      case WantLock => At(l.(lock := t), t, Checking)
      case Checking => if l.count == 0 then At(l.(lock := -1), t, Returned) else At(l, t, Checked)
      case _ => At(l.(lock := -1), t, Parked)
  }

  // ---------------------------------------------------------------------------------- the invariant

  predicate Holds(pc: Pc) {
    pc.Checking? || pc.Checked?
  }

  /** Some thread is on its way to notify. */
  predicate NotifierExists(l: Latch) {
    exists t :: t in l.threads && l.threads[t].ToNotify?
  }

  predicate OneNotifier(l: Latch) {
    forall t, u :: t in l.threads && u in l.threads && l.threads[t].ToNotify? && l.threads[u].ToNotify? ==> t == u
  }

  ghost predicate Inv(l: Latch) {
    && 0 <= l.count
    && (l.notified ==> l.count == 0)
    // exactly one notifier between the last decrement and notify_all, none before or after
    && (NotifierExists(l) <==> l.count == 0 && !l.notified)
    && OneNotifier(l)
    // the mutex: held by at most one thread, which is inside the critical section
    && (forall t :: t in l.threads && Holds(l.threads[t]) ==> l.lock == t)
    && (l.lock != -1 ==> 0 <= l.lock && l.lock in l.threads && Holds(l.threads[l.lock]))
    // after notify_all nobody parks, and nobody is about to
    && (l.notified ==> forall t :: t in l.threads ==> !l.threads[t].Parked? && !l.threads[t].Checked?)
    // Wait returns only at 0
    && (forall t :: t in l.threads && l.threads[t].Returned? ==> l.count == 0)
  }

  function Fresh(count: int, threads: map<nat, Pc>): Latch {
    Latch(count, -1, threads, false)
  }

  predicate AllIdle(threads: map<nat, Pc>) {
    forall t :: t in threads ==> threads[t].Idle?
  }

  lemma SameNotifier(l: Latch, m: Latch)
    requires forall t :: t in m.threads && m.threads[t].ToNotify? <==> t in l.threads && l.threads[t].ToNotify?
    ensures NotifierExists(m) <==> NotifierExists(l)
  {
  }

  /** Thread t goes to `pc`, takes the mutex if that place holds it and releases it if it was left. */
  lemma GoKeepsInv(l: Latch, t: nat, pc: Pc, lock: int)
    requires Inv(l) && t in l.threads && !l.threads[t].ToNotify? && !pc.ToNotify?
    requires if Holds(pc) then lock == t && (Holds(l.threads[t]) || l.lock == -1)
             else lock == if Holds(l.threads[t]) then -1 else l.lock
    requires (pc.Returned? ==> l.count == 0) && (pc.Parked? || pc.Checked? ==> !l.notified)
    ensures Inv(At(l.(lock := lock), t, pc))
  {
    var m := At(l.(lock := lock), t, pc);
    assert forall u :: u in m.threads && m.threads[u].ToNotify? <==> u in l.threads && l.threads[u].ToNotify?;
    SameNotifier(l, m);
  }

  lemma MoveWithoutNotify(l: Latch, s: Step)
    requires Inv(l) && Enabled(l, s) && !l.threads[s.t].ToNotify? && Next(l, s).count == l.count
    ensures Inv(Next(l, s))
  {
    var m := Next(l, s);
    GoKeepsInv(l, s.t, m.threads[s.t], m.lock);
    assert m == At(l.(lock := m.lock), s.t, m.threads[s.t]);
  }

  lemma DecrementKeepsInv(l: Latch, t: nat)
    requires Inv(l) && Enabled(l, Move(t)) && l.threads[t].Loaded? && Next(l, Move(t)).count != l.count
    ensures Inv(Next(l, Move(t)))
  {
    var m := Next(l, Move(t));
    if m.count == 0 {
      assert m.threads[t].ToNotify?;
    } else {
      SameNotifier(l, m);
    }
  }

  lemma NotifyKeepsInv(l: Latch, t: nat)
    requires Inv(l) && Enabled(l, Move(t)) && l.threads[t].ToNotify?
    ensures Inv(Next(l, Move(t)))
  {
    var m := Next(l, Move(t));
    assert forall u :: u in m.threads ==> !m.threads[u].ToNotify?;
  }

  /** Every step keeps the invariant, and the counter never rises. */
  lemma StepKeepsInv(l: Latch, s: Step)
    requires Inv(l) && Enabled(l, s)
    ensures Inv(Next(l, s)) && Next(l, s).count <= l.count
  {
    hide Inv;
    if l.threads[s.t].ToNotify? {
      NotifyKeepsInv(l, s.t);
    } else if Next(l, s).count == l.count {
      MoveWithoutNotify(l, s);
    } else {
      DecrementKeepsInv(l, s.t);
    }
  }

  // ------------------------------------------------------------------------------------- every run

  ghost predicate IsRun(ls: seq<Latch>, steps: seq<Step>) {
    && |ls| == |steps| + 1
    && forall i :: 0 <= i < |steps| ==> Enabled(ls[i], steps[i]) && ls[i + 1] == Next(ls[i], steps[i])
  }

  lemma {:induction false} EveryRunKeepsInv(ls: seq<Latch>, steps: seq<Step>, i: nat)
    requires IsRun(ls, steps) && Inv(ls[0]) && i < |ls|
    ensures Inv(ls[i])
  {
    if i > 0 {
      EveryRunKeepsInv(ls, steps, i - 1);
      StepKeepsInv(ls[i - 1], steps[i - 1]);
    }
  }

  /**
   * In every interleaving: the counter never drops below 0, at most one thread is ever about to
   * notify, Wait has returned only at 0, and whoever is parked at 0 will still be notified.
   */
  lemma NoLostWakeup(ls: seq<Latch>, steps: seq<Step>, count: int, threads: map<nat, Pc>)
    requires IsRun(ls, steps) && ls[0] == Fresh(count, threads) && count > 0 && AllIdle(threads)
    ensures var l := ls[|steps|];
            && 0 <= l.count
            && (forall t :: t in l.threads && l.threads[t].Returned? ==> l.count == 0)
            && OneNotifier(l) && (NotifierExists(l) <==> l.count == 0 && !l.notified)
            && (forall t :: t in l.threads && l.threads[t].Parked? && l.count == 0 ==> NotifierExists(l))
  {
    assert !NotifierExists(ls[0]);
    EveryRunKeepsInv(ls, steps, |steps|);
  }

  /** While somebody is parked at 0, the notifier or the holder of the mutex can move. */
  lemma NeverStuckAtZero(l: Latch, t: nat)
    requires Inv(l) && t in l.threads && l.threads[t].Parked? && l.count == 0
    ensures exists u: nat :: Enabled(l, Move(u))
  {
    if l.lock != -1 {
      assert Enabled(l, Move(l.lock));
    } else {
      var u :| u in l.threads && l.threads[u].ToNotify?;
      assert Enabled(l, Move(u));
    }
  }

  /** notify_all is called at most once in a run, and only by the thread that reached 0. */
  lemma NotifiesOnce(ls: seq<Latch>, steps: seq<Step>, i: nat, j: nat)
    requires IsRun(ls, steps) && Inv(ls[0]) && i < j < |steps|
    requires steps[i].Move? && ls[i].threads[steps[i].t].ToNotify?
    ensures steps[j].Move? ==> !ls[j].threads[steps[j].t].ToNotify?
  {
    NotifiedStays(ls, steps, i + 1, j);
    EveryRunKeepsInv(ls, steps, j);
    assert !NotifierExists(ls[j]);
  }

  lemma {:induction false} NotifiedStays(ls: seq<Latch>, steps: seq<Step>, i: nat, j: nat)
    requires IsRun(ls, steps) && i <= j < |ls| && ls[i].notified
    ensures ls[j].notified
    decreases j
  {
    if i < j {
      NotifiedStays(ls, steps, i, j - 1);
    }
  }

  /** CountDown never blocks before it notifies; only the mutex holds a thread up, and only one that needs it. */
  lemma EveryoneMoves(l: Latch, t: nat)
    requires t in l.threads
    ensures var pc := l.threads[t];
            && (pc.Idle? ==> Enabled(l, CallCountDown(t)) && Enabled(l, CallWait(t)))
            && (pc.Parked? ==> Enabled(l, Spurious(t)))
            && (Counting(pc) || Holds(pc) || pc.WaitStart? ==> Enabled(l, Move(t)))
            && (pc.ToNotify? || pc.WantLock? ==> (Enabled(l, Move(t)) <==> l.lock == -1))
  {
  }

  /** At 0 every test of Wait ends it, and gives the mutex back. */
  lemma WaitEndsAtZero(l: Latch, t: nat)
    requires l.count == 0 && t in l.threads && (l.threads[t].WaitStart? || l.threads[t].Checking?)
    ensures Enabled(l, Move(t)) && Next(l, Move(t)).threads[t].Returned?
    ensures l.threads[t].Checking? ==> Next(l, Move(t)).lock == -1
  {
  }

  // ------------------------------------------------------------------------------- no call is lost

  predicate Counting(pc: Pc) {
    pc.Loading? || pc.Loaded?
  }

  /** The threads inside CountDown that have not decremented yet. */
  ghost function Busy(ts: map<nat, Pc>): set<nat> {
    set t | t in ts && Counting(ts[t])
  }

  lemma BusyAfter(ts: map<nat, Pc>, t: nat, pc: Pc)
    requires t in ts
    ensures |Busy(ts[t := pc])|
            == |Busy(ts)| - (if Counting(ts[t]) then 1 else 0) + (if Counting(pc) then 1 else 0)
  {
    var a, b := Busy(ts), Busy(ts[t := pc]);
    if Counting(pc) {
      assert b == a + {t};
    } else {
      assert b == a - {t};
    }
  }

  lemma BusyWoken(ts: map<nat, Pc>)
    ensures Busy(WakeAll(ts)) == Busy(ts)
  {
  }

  /** How often CountDown has been called. */
  function Calls(steps: seq<Step>): nat {
    if steps == [] then 0
    else Calls(steps[..|steps| - 1]) + (if steps[|steps| - 1].CallCountDown? then 1 else 0)
  }

  /** What a thread has loaded is never below the counter. */
  predicate NotBelow(l: Latch) {
    forall t :: t in l.threads && l.threads[t].Loaded? ==> l.count <= l.threads[t].old_c
  }

  lemma NotBelowStep(l: Latch, s: Step)
    requires NotBelow(l) && Enabled(l, s)
    ensures NotBelow(Next(l, s))
  {
  }

  /** While the counter is positive a step lowers it, or a call is still under way. */
  lemma CountStep(l: Latch, s: Step)
    requires NotBelow(l) && Enabled(l, s) && Next(l, s).count > 0
    ensures l.count - Next(l, s).count
            == (if s.CallCountDown? then 1 else 0) + |Busy(l.threads)| - |Busy(Next(l, s).threads)|
  {
    hide Busy;
    if s.Move? && l.threads[s.t].ToNotify? {
      BusyWoken(l.threads[s.t := Idle]);
      BusyAfter(l.threads, s.t, Idle);
    } else {
      BusyAfter(l.threads, s.t, Next(l, s).threads[s.t]);
    }
  }

  /**
   * In every interleaving, as long as the counter is positive: it has been lowered once for every
   * call of CountDown that is not still under way, however often exchanges failed.
   */
  lemma {:induction false} EveryCallCounts(ls: seq<Latch>, steps: seq<Step>, count: int, threads: map<nat, Pc>, i: nat)
    requires IsRun(ls, steps) && ls[0] == Fresh(count, threads) && AllIdle(threads) && i < |ls|
    ensures NotBelow(ls[i])
    ensures ls[i].count > 0 ==> count - ls[i].count == Calls(steps[..i]) - |Busy(ls[i].threads)|
  {
    hide Next, Enabled, Busy;
    if i == 0 {
      NoneBusy(threads);
    } else {
      var l, s := ls[i - 1], steps[i - 1];
      EveryCallCounts(ls, steps, count, threads, i - 1);
      NotBelowStep(l, s);
      assert steps[..i][..i - 1] == steps[..i - 1];
      if ls[i].count > 0 {
        CountStep(l, s);
        NeverRises(l, s);
      }
    }
  }

  lemma NeverRises(l: Latch, s: Step)
    requires Enabled(l, s)
    ensures Next(l, s).count <= l.count
  {
  }

  lemma NoneBusy(threads: map<nat, Pc>)
    requires AllIdle(threads)
    ensures |Busy(threads)| == 0
  {
    assert Busy(threads) == {};
  }

  /** Once `count` calls have gone through, the counter is 0. */
  lemma EnoughCallsReachZero(ls: seq<Latch>, steps: seq<Step>, count: int, threads: map<nat, Pc>)
    requires IsRun(ls, steps) && ls[0] == Fresh(count, threads) && count > 0 && AllIdle(threads)
    requires Calls(steps) - |Busy(ls[|steps|].threads)| >= count
    ensures ls[|steps|].count == 0
  {
    EveryCallCounts(ls, steps, count, threads, |steps|);
    NoLostWakeup(ls, steps, count, threads);
    assert steps[..|steps|] == steps;
  }
}
