/**
 * The blocking queue itself (raw_examples/thread_pool/msg_qunue.h) as interleaved steps of any
 * number of threads. The body of a critical section is one step; waiting releases the lock and
 * parks in the same step; notifications come after the lock is released.
 */
module MessageQueue {
  import opened Wrappers
  import opened DataContainer

  datatype Pc<T> =
    | Idle
    | ProducerAwake(item: T)     // in enqueue, about to take the lock and test
    | ProducerParked(item: T)    // waiting on m_pop_cv
    | ProducerNoWait(item: T)    // in enqueue_nowait
    | ProducerNotify             // pushed, about to notify m_push_cv
    | ConsumerAwake(timed: bool) // in dequeue or dequeue_for, about to take the lock and test
    | ConsumerParked(timed: bool)// waiting on m_push_cv
    | ConsumerLast               // timed out: tests once more, then gives up
    | ConsumerNotify             // popped, about to notify m_pop_cv

  /** Where an item went. */
  datatype Fate<T> = Taken(item: T) | Overrun(item: T)

  datatype Queue<T> = Queue(
    cap: nat,
    threads: map<nat, Pc<T>>,
    items: seq<T>,
    pushed: seq<T>,          // every item pushed, in order
    gone: seq<Fate<T>>       // every item that left, in order
  )

  datatype Step<T> =
    | Call(t: nat, pc: Pc<T>)              // an idle thread calls one of the four operations
    | Run(t: nat)                          // the critical section of an awake thread
    | Notify(t: nat, woken: nat)           // notify_one; `woken` is a parked thread, if there is one
    | Wake(t: nat)                         // spurious wakeup
    | Timeout(t: nat)

  predicate Start<T>(pc: Pc<T>) {
    pc.ProducerAwake? || pc.ProducerNoWait? || pc.ConsumerAwake?
  }

  /** push_back on the queue, overrunning the oldest item when full. */
  function Push<T>(q: Queue<T>, t: nat, x: T): Queue<T> {
    var all := q.items + [x];
    var q' := q.(threads := q.threads[t := ProducerNotify], pushed := q.pushed + [x]);
    if |all| <= q.cap then q'.(items := all)
    else q'.(items := all[1..], gone := q.gone + [Overrun(all[0])])
  }

  function Pop<T>(q: Queue<T>, t: nat): Queue<T>
    requires q.items != []
  {
    q.(threads := q.threads[t := ConsumerNotify], items := q.items[1..], gone := q.gone + [Taken(q.items[0])])
  }

  function At<T>(q: Queue<T>, t: nat, pc: Pc<T>): Queue<T> {
    q.(threads := q.threads[t := pc])
  }

  /** The step can be taken. notify_one must wake a parked thread if there is one. */
  ghost predicate Enabled<T(!new)>(q: Queue<T>, s: Step<T>) {
    s.t in q.threads &&
    var pc := q.threads[s.t];
    match s
    case Call(t, next) => pc.Idle? && Start(next)
    case Run(t) => pc.ProducerAwake? || pc.ProducerNoWait? || pc.ConsumerAwake? || pc.ConsumerLast?
    case Wake(t) => pc.ProducerParked? || pc.ConsumerParked?
    case Timeout(t) => pc.ConsumerParked? && pc.timed
    case Notify(t, woken) =>
      (pc.ProducerNotify? || pc.ConsumerNotify?)
      && (forall u :: u in q.threads && Waits(pc, q.threads[u]) ==> woken in q.threads && Waits(pc, q.threads[woken]))
  }

  /** A thread parked on the condition variable that `notifier` signals. */
  predicate Waits<T>(notifier: Pc<T>, pc: Pc<T>) {
    if notifier.ProducerNotify? then pc.ConsumerParked? else pc.ProducerParked?
  }

  function Awake<T>(pc: Pc<T>): Pc<T> {
    match pc
    case ProducerParked(x) => ProducerAwake(x)
    case ConsumerParked(timed) => ConsumerAwake(timed)
    case other => other
  }

  ghost function Next<T(!new)>(q: Queue<T>, s: Step<T>): Queue<T>
    requires Enabled(q, s)
  {
    match s
    case Call(t, pc) => At(q, t, pc)
    case Wake(t) => At(q, t, Awake(q.threads[t]))
    case Timeout(t) => At(q, t, ConsumerLast)
    case Run(t) =>
      (match q.threads[t]
       case ProducerAwake(x) => if |q.items| < q.cap then Push(q, t, x) else At(q, t, ProducerParked(x))
       case ProducerNoWait(x) => Push(q, t, x)
       case ConsumerAwake(timed) => if q.items != [] then Pop(q, t) else At(q, t, ConsumerParked(timed))
       case _ => if q.items != [] then Pop(q, t) else At(q, t, Idle))
    case Notify(t, woken) =>
      var q' := At(q, t, Idle);
      if woken in q.threads && Waits(q.threads[t], q.threads[woken])
      then At(q', woken, Awake(q.threads[woken])) else q'
  }

  // ------------------------------------------------------------------------------- counting threads

  datatype Kind = Other | PAwake | PParked | PNotify | CAwake | CParked | CNotify

  function KindOf<T>(pc: Pc<T>): Kind {
    match pc
    case ProducerAwake(_) => PAwake
    case ProducerParked(_) => PParked
    case ProducerNotify => PNotify
    case ConsumerAwake(_) => CAwake
    case ConsumerLast => CAwake
    case ConsumerParked(_) => CParked
    case ConsumerNotify => CNotify
    case _ => Other
  }

  ghost function Of<T>(ts: map<nat, Pc<T>>, k: Kind): set<nat> {
    set t | t in ts && KindOf(ts[t]) == k
  }

  ghost function Count<T>(ts: map<nat, Pc<T>>, k: Kind): nat {
    |Of(ts, k)|
  }

  lemma CountUpdate<T>(ts: map<nat, Pc<T>>, t: nat, pc: Pc<T>, k: Kind)
    requires t in ts
    ensures Count(ts[t := pc], k)
            == Count(ts, k) - (if KindOf(ts[t]) == k then 1 else 0) + (if KindOf(pc) == k then 1 else 0)
  {
    var a, b := Of(ts, k), Of(ts[t := pc], k);
    if KindOf(pc) == k {
      assert b == a + {t};
    } else {
      assert b == a - {t};
    }
  }

  // ---------------------------------------------------------------------------------- the invariant

  function ItemsOf<T>(gone: seq<Fate<T>>): seq<T> {
    if gone == [] then [] else ItemsOf(gone[..|gone| - 1]) + [gone[|gone| - 1].item]
  }

  ghost predicate Inv<T>(q: Queue<T>) {
    && |q.items| <= q.cap
    && ItemsOf(q.gone) + q.items == q.pushed
    && (Count(q.threads, CParked) > 0 ==>
          |q.items| <= Count(q.threads, PNotify) + Count(q.threads, CAwake))
    && (Count(q.threads, PParked) > 0 ==>
          q.cap - |q.items| <= Count(q.threads, CNotify) + Count(q.threads, PAwake))
  }

  lemma CountsAfter<T>(ts: map<nat, Pc<T>>, t: nat, pc: Pc<T>)
    requires t in ts
    ensures forall k :: Count(ts[t := pc], k)
              == Count(ts, k) - (if KindOf(ts[t]) == k then 1 else 0) + (if KindOf(pc) == k then 1 else 0)
  {
    forall k {
      CountUpdate(ts, t, pc, k);
    }
  }

  lemma ItemsOfAppend<T>(gone: seq<Fate<T>>, f: Fate<T>)
    ensures ItemsOf(gone + [f]) == ItemsOf(gone) + [f.item]
  {
    assert (gone + [f])[..|gone|] == gone;
  }

  /** Pushing accounts for the new item, and for the overrun one if the queue was full. */
  lemma PushConserves<T>(q: Queue<T>, t: nat, x: T)
    requires ItemsOf(q.gone) + q.items == q.pushed && |q.items| <= q.cap
    ensures ItemsOf(Push(q, t, x).gone) + Push(q, t, x).items == Push(q, t, x).pushed
    ensures |Push(q, t, x).items| == if |q.items| < q.cap then |q.items| + 1 else |q.items|
    ensures Push(q, t, x).threads == q.threads[t := ProducerNotify] && Push(q, t, x).cap == q.cap
  {
    var all := q.items + [x];
    assert ItemsOf(q.gone) + all == q.pushed + [x];
    if |all| > q.cap {
      ItemsOfAppend(q.gone, Overrun(all[0]));
      assert ItemsOf(q.gone) + [all[0]] + all[1..] == ItemsOf(q.gone) + all;
    }
  }

  lemma PopConserves<T>(q: Queue<T>, t: nat)
    requires q.items != [] && ItemsOf(q.gone) + q.items == q.pushed
    ensures ItemsOf(Pop(q, t).gone) + Pop(q, t).items == q.pushed
  {
    ItemsOfAppend(q.gone, Taken(q.items[0]));
    assert ItemsOf(q.gone) + [q.items[0]] + q.items[1..] == ItemsOf(q.gone) + q.items;
  }

  lemma PushKeepsInv<T>(q: Queue<T>, t: nat, x: T)
    requires Inv(q) && t in q.threads
    requires KindOf(q.threads[t]) == Other || (KindOf(q.threads[t]) == PAwake && |q.items| < q.cap)
    ensures Inv(Push(q, t, x))
  {
    hide ItemsOf, Count, Push;
    CountsAfter(q.threads, t, ProducerNotify);
    PushConserves(q, t, x);
  }

  lemma PopKeepsInv<T>(q: Queue<T>, t: nat)
    requires Inv(q) && t in q.threads && KindOf(q.threads[t]) == CAwake && q.items != []
    ensures Inv(Pop(q, t))
  {
    hide ItemsOf, Count;
    CountsAfter<T>(q.threads, t, ConsumerNotify);
    PopConserves(q, t);
  }

  /** Giving up or parking, because the queue is full for a producer or empty for a consumer. */
  lemma WaitKeepsInv<T>(q: Queue<T>, t: nat, pc: Pc<T>)
    requires Inv(q) && t in q.threads
    requires (KindOf(q.threads[t]) == PAwake && |q.items| >= q.cap && pc.ProducerParked?)
             || (KindOf(q.threads[t]) == CAwake && q.items == [] && (pc.ConsumerParked? || pc.Idle?))
    ensures Inv(At(q, t, pc))
  {
    hide ItemsOf, Count;
    CountsAfter(q.threads, t, pc);
  }

  lemma RunKeepsInv<T(!new)>(q: Queue<T>, t: nat)
    requires Inv(q) && Enabled(q, Run(t))
    ensures Inv(Next(q, Run(t)))
  {
    hide Inv, Push, Pop, At;
    assert |q.items| <= q.cap by {
      InvBounds(q);
    }
    match q.threads[t]
    case ProducerAwake(x) =>
      if |q.items| < q.cap {
        PushKeepsInv(q, t, x);
      } else {
        WaitKeepsInv(q, t, ProducerParked(x));
      }
    case ProducerNoWait(x) => PushKeepsInv(q, t, x);
    case ConsumerAwake(timed) =>
      if q.items != [] {
        PopKeepsInv(q, t);
      } else {
        WaitKeepsInv(q, t, ConsumerParked(timed));
      }
    case _ =>
      if q.items != [] {
        PopKeepsInv(q, t);
      } else {
        WaitKeepsInv(q, t, Idle);
      }
  }

  lemma InvBounds<T>(q: Queue<T>)
    requires Inv(q)
    ensures |q.items| <= q.cap
  {
  }

  /** Nobody is parked on a condition variable exactly when its count is zero. */
  lemma CountZero<T>(ts: map<nat, Pc<T>>, k: Kind)
    ensures Count(ts, k) == 0 <==> forall t :: t in ts ==> KindOf(ts[t]) != k
  {
    if Count(ts, k) == 0 {
      forall t | t in ts
        ensures KindOf(ts[t]) != k
      {
        assert t !in Of(ts, k);
      }
    } else {
      var t :| t in Of(ts, k);
    }
  }

  lemma NotifyKeepsInv<T(!new)>(q: Queue<T>, t: nat, woken: nat)
    requires Inv(q) && Enabled(q, Notify(t, woken))
    ensures Inv(Next(q, Notify(t, woken)))
  {
    hide ItemsOf, Count;
    var pc := q.threads[t];
    var k := if pc.ProducerNotify? then CParked else PParked;
    CountsAfter(q.threads, t, Idle);
    CountZero(q.threads, k);
    if woken in q.threads && Waits(pc, q.threads[woken]) {
      CountsAfter(q.threads[t := Idle], woken, Awake(q.threads[woken]));
    } else {
      assert Count(q.threads, k) == 0;
    }
  }

  /** A thread changes its place without touching the items. */
  lemma MoveKeepsInv<T(!new)>(q: Queue<T>, t: nat, pc: Pc<T>)
    requires Inv(q) && t in q.threads
    requires var k, l := KindOf(q.threads[t]), KindOf(pc);
             (k == Other && (l == Other || l == PAwake || l == CAwake))
             || (k == PParked && l == PAwake) || (k == CParked && l == CAwake)
    ensures Inv(At(q, t, pc))
  {
    hide ItemsOf, Count;
    CountsAfter(q.threads, t, pc);
  }

  /** Every step of every thread keeps the invariant. */
  lemma StepKeepsInv<T(!new)>(q: Queue<T>, s: Step<T>)
    requires Inv(q) && Enabled(q, s)
    ensures Inv(Next(q, s)) && Next(q, s).cap == q.cap
  {
    hide Inv;
    match s
    case Run(t) => RunKeepsInv(q, t);
    case Notify(t, woken) => NotifyKeepsInv(q, t, woken);
    case Call(t, pc) => MoveKeepsInv(q, t, pc);
    case Wake(t) => MoveKeepsInv(q, t, Awake(q.threads[t]));
    case Timeout(t) => MoveKeepsInv(q, t, ConsumerLast);
  }

  // ------------------------------------------------------------------------------------- every run

  /** A run is a sequence of queues, each the next of the one before. */
  ghost predicate IsRun<T(!new)>(qs: seq<Queue<T>>, steps: seq<Step<T>>) {
    && |qs| == |steps| + 1
    && forall i :: 0 <= i < |steps| ==> Enabled(qs[i], steps[i]) && qs[i + 1] == Next(qs[i], steps[i])
  }

  function Fresh<T>(cap: nat, threads: map<nat, Pc<T>>): Queue<T> {
    Queue(cap, threads, [], [], [])
  }

  predicate AllIdle<T>(threads: map<nat, Pc<T>>) {
    forall t :: t in threads ==> threads[t].Idle?
  }

  lemma {:induction false} EveryRunKeepsInv<T(!new)>(qs: seq<Queue<T>>, steps: seq<Step<T>>, i: nat)
    requires IsRun(qs, steps) && Inv(qs[0]) && i < |qs|
    ensures Inv(qs[i]) && qs[i].cap == qs[0].cap
  {
    hide Inv, Next, Enabled;
    if i > 0 {
      EveryRunKeepsInv(qs, steps, i - 1);
      StepKeepsInv(qs[i - 1], steps[i - 1]);
    }
  }

  lemma FreshInv<T>(cap: nat, threads: map<nat, Pc<T>>)
    requires AllIdle(threads)
    ensures Inv(Fresh(cap, threads))
  {
    CountZero(threads, CParked);
    CountZero(threads, PParked);
  }

  /** Only parked and idle threads are left: nobody can move without a spurious wakeup or timeout. */
  predicate Quiet<T>(q: Queue<T>) {
    forall t :: t in q.threads ==> var pc := q.threads[t]; pc.Idle? || pc.ProducerParked? || pc.ConsumerParked?
  }

  /**
   * No lost wakeup, in every interleaving of any number of threads: when everything has come to
   * rest, a parked consumer means an empty queue and a parked producer means a full one, so with
   * room for at least one item they are never both parked. No item is lost, duplicated or
   * reordered on the way: those that left plus those queued are those pushed, in order.
   */
  lemma NoLostWakeup<T(!new)>(qs: seq<Queue<T>>, steps: seq<Step<T>>, cap: nat, threads: map<nat, Pc<T>>)
    requires IsRun(qs, steps) && qs[0] == Fresh(cap, threads) && AllIdle(threads)
    ensures var q := qs[|steps|];
            && |q.items| <= cap && ItemsOf(q.gone) + q.items == q.pushed
            && (Quiet(q) ==>
                  && ((exists t :: t in q.threads && q.threads[t].ConsumerParked?) ==> q.items == [])
                  && ((exists t :: t in q.threads && q.threads[t].ProducerParked?) ==> |q.items| == cap))
  {
    FreshInv(cap, threads);
    EveryRunKeepsInv(qs, steps, |steps|);
    RestMeans(qs[|steps|]);
  }

  lemma RestMeans<T>(q: Queue<T>)
    requires Inv(q)
    ensures Quiet(q) && (exists t :: t in q.threads && q.threads[t].ConsumerParked?) ==> q.items == []
    ensures Quiet(q) && (exists t :: t in q.threads && q.threads[t].ProducerParked?) ==> |q.items| == q.cap
  {
    hide ItemsOf, Count;
    if Quiet(q) {
      CountZero(q.threads, CParked);
      CountZero(q.threads, PParked);
      CountZero(q.threads, CAwake);
      CountZero(q.threads, PAwake);
      CountZero(q.threads, CNotify);
      CountZero(q.threads, PNotify);
    }
  }

  /** Nobody is held up: whoever is neither idle nor parked can move, and whoever is parked can be woken. */
  lemma EveryoneMoves<T(!new)>(q: Queue<T>, t: nat)
    requires t in q.threads && !q.threads[t].Idle?
    ensures var pc := q.threads[t];
            if pc.ProducerParked? || pc.ConsumerParked?
            then Enabled(q, Wake(t)) && (pc.ConsumerParked? && pc.timed ==> Enabled(q, Timeout(t)))
            else if pc.ProducerNotify? || pc.ConsumerNotify? then exists woken :: Enabled(q, Notify(t, woken))
            else Enabled(q, Run(t))
  {
    var pc := q.threads[t];
    if pc.ProducerNotify? || pc.ConsumerNotify? {
      var woken := if exists u :: u in q.threads && Waits(pc, q.threads[u])
                   then (var u :| u in q.threads && Waits(pc, q.threads[u]); u) else 0;
      assert Enabled(q, Notify(t, woken));
    }
  }

  /** A consumer whose time is up tests once more: it takes an item if there is one and gives up if not. */
  lemma TimeoutDecides<T(!new)>(q: Queue<T>, t: nat)
    requires Enabled(q, Timeout(t))
    ensures var q' := Next(q, Timeout(t));
            && q'.items == q.items && q'.gone == q.gone && Enabled(q', Run(t))
            && (if q.items == [] then Next(q', Run(t)).threads[t].Idle? && Next(q', Run(t)).gone == q.gone
                else Next(q', Run(t)).gone == q.gone + [Taken(q.items[0])])
  {
  }

  // -------------------------------------------------------------------------- blocking enqueue only

  function Overruns<T>(gone: seq<Fate<T>>): nat {
    if gone == [] then 0
    else Overruns(gone[..|gone| - 1]) + (if gone[|gone| - 1].Overrun? then 1 else 0)
  }

  predicate NoNoWait<T>(q: Queue<T>) {
    forall t :: t in q.threads ==> !q.threads[t].ProducerNoWait?
  }

  lemma BlockingStep<T(!new)>(q: Queue<T>, s: Step<T>)
    requires Enabled(q, s) && NoNoWait(q) && Overruns(q.gone) == 0
    requires s.Call? ==> !s.pc.ProducerNoWait?
    ensures NoNoWait(Next(q, s)) && Overruns(Next(q, s).gone) == 0
  {
    if q.items != [] {
      assert (q.gone + [Taken(q.items[0])])[..|q.gone|] == q.gone;
    }
  }

  /** Without enqueue_nowait nothing is ever overrun: every item pushed is taken or still queued. */
  lemma {:induction false} BlockingNeverOverruns<T(!new)>(qs: seq<Queue<T>>, steps: seq<Step<T>>, i: nat)
    requires IsRun(qs, steps) && i < |qs| && NoNoWait(qs[0]) && Overruns(qs[0].gone) == 0
    requires forall s :: s in steps && s.Call? ==> !s.pc.ProducerNoWait?
    ensures NoNoWait(qs[i]) && Overruns(qs[i].gone) == 0
  {
    hide Next, Enabled, NoNoWait, Overruns;
    if i > 0 {
      BlockingNeverOverruns(qs, steps, i - 1);
      assert steps[i - 1] in steps;
      BlockingStep(qs[i - 1], steps[i - 1]);
    }
  }

  // ------------------------------------------------------------- the critical sections on the ring

  /** The ring holds what the queue says. */
  ghost predicate Backs<T(0)>(c: Container<T>, q: Queue<T>)
    reads c, c.m_container
  {
    && c.Valid() && c.m_max_items == q.cap + 1 && c.Items() == q.items
    && c.m_overrun_counter == Overruns(q.gone)
  }

  lemma OverrunsAppend<T>(gone: seq<Fate<T>>, f: Fate<T>)
    ensures Overruns(gone + [f]) == Overruns(gone) + (if f.Overrun? then 1 else 0)
  {
    assert (gone + [f])[..|gone|] == gone;
  }

  /** The step of a thread that finds no room, or nothing to take. */
  lemma RunStays<T(!new)>(q: Queue<T>, t: nat)
    requires Enabled(q, Run(t))
    ensures var pc, q' := q.threads[t], Next(q, Run(t));
            && (pc.ProducerAwake? && |q.items| >= q.cap ==> q' == At(q, t, ProducerParked(pc.item)))
            && (pc.ConsumerAwake? && q.items == [] ==> q' == At(q, t, ConsumerParked(pc.timed)))
            && (pc.ConsumerLast? && q.items == [] ==> q' == At(q, t, Idle))
  {
  }

  /** The step of a thread that pushes. */
  lemma RunPushes<T(!new)>(q: Queue<T>, t: nat, x: T)
    requires Enabled(q, Run(t)) && |q.items| <= q.cap
    requires q.threads[t] == ProducerNoWait(x) || (q.threads[t] == ProducerAwake(x) && |q.items| < q.cap)
    ensures var q' := Next(q, Run(t));
            && q'.cap == q.cap && q'.threads == q.threads[t := ProducerNotify]
            && q'.items == (if |q.items| < q.cap then q.items + [x] else (q.items + [x])[1..])
            && Overruns(q'.gone) == Overruns(q.gone) + (if |q.items| < q.cap then 0 else 1)
  {
    hide Overruns;
    assert Next(q, Run(t)) == Push(q, t, x);
    OverrunsAppend(q.gone, Overrun((q.items + [x])[0]));
  }

  /** The step of a thread that pops. */
  lemma RunPops<T(!new)>(q: Queue<T>, t: nat)
    requires Enabled(q, Run(t)) && (q.threads[t].ConsumerAwake? || q.threads[t].ConsumerLast?) && q.items != []
    ensures var q' := Next(q, Run(t));
            && q'.cap == q.cap && q'.threads == q.threads[t := ConsumerNotify]
            && q'.items == q.items[1..] && Overruns(q'.gone) == Overruns(q.gone)
            && q'.gone == q.gone + [Taken(q.items[0])]
  {
    hide Overruns;
    OverrunsAppend(q.gone, Taken(q.items[0]));
  }

  /** Between lock and unlock: test, then push, pop or wait, as the thread's operation asks. */
  method CriticalSection<T(0, !new)>(c: Container<T>, pc: Pc<T>, ghost q: Queue<T>, ghost t: nat)
    returns (pc': Pc<T>, popped: Option<T>)
    requires Backs(c, q) && Enabled(q, Run(t)) && q.threads[t] == pc
    modifies c, c.m_container
    ensures Backs(c, Next(q, Run(t))) && Next(q, Run(t)).threads[t] == pc'
    ensures popped.Some? <==> pc'.ConsumerNotify?
    ensures popped.Some? ==> Next(q, Run(t)).gone == q.gone + [Taken(popped.value)]
  {
    hide Next, Overruns, Around;
    var size, empty, full := c.Measure();
    popped := None;
    RunStays(q, t);
    if pc.ProducerAwake? && full {
      pc' := ProducerParked(pc.item);
    } else if pc.ProducerAwake? || pc.ProducerNoWait? {
      RunPushes(q, t, pc.item);
      c.PushBack(pc.item);
      pc' := ProducerNotify;
    } else if empty {
      pc' := if pc.ConsumerAwake? then ConsumerParked(pc.timed) else Idle;
    } else {
      RunPops(q, t);
      var item := c.PopFront();
      assert c.Items() == ([item] + c.Items())[1..];
      popped := Some(item);
      pc' := ConsumerNotify;
    }
  }
}
