/** What the ARP cache does at once with a packet or a message, and how its entries age over runs. */
module ArpAgeing {
  import opened Wrappers
  import opened Arp
  import opened ArpProofs
  import Bytes
  import ArpCache

  // -------------------------------------------------------------------------- learning, and dropping

  /** The entry `j` places behind `next`, around the array. */
  function Around(next: nat, j: nat, n: nat): nat
    requires next < n && j < n
  {
    if next + j < n then next + j else next + j - n
  }

  /** The round-robin search fails only past live entries. */
  lemma {:induction false} FreeFromPassed(c: seq<Entry>, next: nat, k: nat, j: nat)
    requires next < |c| && j < k <= |c| && FreeFrom(c, next, k) == None
    ensures !c[Around(next, j, |c|)].state.FREE?
    decreases k
  {
    hide FreeFrom;
    ArpCache.FreeUnfold(c, next, k);
    if j > 0 {
      Bytes.ModSmall(next + 1, |c|);
      FreeFromPassed(c, if next + 1 == |c| then 0 else next + 1, k - 1, j - 1);
    }
  }

  /** It finds a free entry if and only if there is one, wherever it starts. */
  lemma FreeFromComplete(c: seq<Entry>, next: nat)
    requires next < |c|
    ensures FreeFrom(c, next, |c|).Some? <==> exists i :: 0 <= i < |c| && c[i].state.FREE?
  {
    if FreeFrom(c, next, |c|) == None {
      forall i | 0 <= i < |c|
        ensures !c[i].state.FREE?
      {
        FreeFromPassed(c, next, |c|, if next <= i then i - next else i - next + |c|);
      }
    }
  }

  predicate Full(c: seq<Entry>) {
    forall i :: 0 <= i < |c| ==> !c[i].state.FREE?
  }

  /**
   * What becomes of a packet at once: sent if and only if its next hop is resolved, freed if and
   * only if the next hop is unknown and the cache is full, queued otherwise.
   */
  lemma AtOnceExactly(a: Arp, p: Packet)
    requires Inv(a)
    ensures var b, hop := SendDev(a, p), Lookup(a.cache, PRO_IP, p.dst);
            && (b.fates == a.fates + [Sent(p)] <==> hop.Some? && a.cache[hop.value].state.RESOLVED?)
            && (b.fates == a.fates + [Freed(p)] <==> hop.None? && Full(a.cache))
            && (b.fates == a.fates <==>
                  if hop.Some? then a.cache[hop.value].state.WAITING? else !Full(a.cache))
  {
    hide FreeFrom, CacheOk;
    FreeFromComplete(a.cache, a.next);
    var f := SendDev(a, p).fates;
    assert |f| > |a.fates| ==> f[|a.fates|] == Sent(p) || f[|a.fates|] == Freed(p);
    assert (a.fates + [Freed(p)])[|a.fates|] == Freed(p) && (a.fates + [Sent(p)])[|a.fates|] == Sent(p);
  }

  /** The search takes the first free entry in turn. */
  lemma {:induction false} FreeFromFirst(c: seq<Entry>, next: nat, k: nat)
    requires next < |c| && k <= |c| && FreeFrom(c, next, k).Some?
    ensures exists j :: 0 <= j < k && FreeFrom(c, next, k) == Some(Around(next, j, |c|))
                        && forall h :: 0 <= h < j ==> !c[Around(next, h, |c|)].state.FREE?
    decreases k
  {
    hide FreeFrom;
    ArpCache.FreeUnfold(c, next, k);
    if c[next].state.FREE? {
      assert Around(next, 0, |c|) == next;
    } else {
      Bytes.ModSmall(next + 1, |c|);
      var after := if next + 1 == |c| then 0 else next + 1;
      FreeFromFirst(c, after, k - 1);
      var j :| 0 <= j < k - 1 && FreeFrom(c, after, k - 1) == Some(Around(after, j, |c|))
               && forall h :: 0 <= h < j ==> !c[Around(after, h, |c|)].state.FREE?;
      forall h | 0 <= h < j + 1
        ensures !c[Around(next, h, |c|)].state.FREE?
      {
        if h > 0 {
          assert Around(next, h, |c|) == Around(after, h - 1, |c|);
        }
      }
      assert Around(next, j + 1, |c|) == Around(after, j, |c|);
    }
  }

  /** Entry `i` is the first free one from `next` on, and the next search starts behind it. */
  predicate TakenInTurn(c: seq<Entry>, next: nat, i: nat, next': nat)
    requires next < |c|
  {
    && next' < |c| && i < |c| && next' == (if i + 1 == |c| then 0 else i + 1)
    && exists j :: 0 <= j < |c| && i == Around(next, j, |c|)
                   && forall h :: 0 <= h < j ==> !c[Around(next, h, |c|)].state.FREE?
  }

  /** A packet for an unknown next hop starts a new entry that asks, and touches no other. */
  lemma AsksForUnknown(a: Arp, p: Packet)
    requires Inv(a) && Lookup(a.cache, PRO_IP, p.dst).None? && !Full(a.cache)
    ensures exists i :: 0 <= i < |a.cache|
              && a.cache[i].state.FREE? && TakenInTurn(a.cache, a.next, i, SendDev(a, p).next)
              && SendDev(a, p).cache
                 == a.cache[i := Entry(WAITING, PRO_IP, p.dst, a.cache[i].hw, WAITTIME, REQ_RETRY, [p])]
  {
    hide CacheOk;
    FreeFromComplete(a.cache, a.next);
    FreeFromFirst(a.cache, a.next, CACHE_SZ);
    var i := FreeFrom(a.cache, a.next, CACHE_SZ).value;
    Bytes.ModSmall(i + 1, CACHE_SZ);
    hide FreeFrom;
    assert TakenInTurn(a.cache, a.next, i, SendDev(a, p).next);
  }

  /** The entry for an address, if there is one in a cache without two. */
  lemma LookupAt(c: seq<Entry>, pro: nat, ip: nat, i: nat)
    requires CacheOk(c) && i < |c| && c[i].For(pro, ip)
    ensures Lookup(c, pro, ip) == Some(i)
  {
  }

  /**
   * After a message the sender is known with the address it gave and a full lifetime; only a reply
   * nobody waited for, and a request that finds the cache full, are not learned.
   */
  lemma LearnsSender(a: Arp, request: bool, pro: nat, sip: nat, sha: nat)
    requires Inv(a)
    ensures var b := Recv(a, request, pro, sip, sha);
            && (Lookup(b.cache, pro, sip).Some? <==> Lookup(a.cache, pro, sip).Some? || (request && !Full(a.cache)))
            && (Lookup(b.cache, pro, sip).Some? ==>
                  var e := b.cache[Lookup(b.cache, pro, sip).value];
                  e.state.RESOLVED? && e.hw == sha && e.ttl == TIMEOUT)
  {
    hide FreeFrom, CacheOk;
    MessageKeeps(a, request, pro, sip, sha);
    FreeFromComplete(a.cache, a.next);
    var b := Recv(a, request, pro, sip, sha);
    match Lookup(a.cache, pro, sip)
    case Some(i) => LookupAt(b.cache, pro, sip, i);
    case None =>
      if request && FreeFrom(a.cache, a.next, CACHE_SZ).Some? {
        LookupAt(b.cache, pro, sip, FreeFrom(a.cache, a.next, CACHE_SZ).value);
      }
  }

  // -------------------------------------------------------------------------------------- the retries

  /** Every tick takes a second or more, and no message comes from the address. */
  predicate Unanswered(es: seq<Event>, pro: nat, ip: nat) {
    forall e :: e in es ==>
      (e.Message? ==> e.pro != pro || e.sip != ip) && (e.Clock? ==> e.delta >= 1)
  }

  function Clocks(es: seq<Event>): nat {
    if es == [] then 0 else (if es[0].Clock? then 1 else 0) + Clocks(es[1..])
  }

  function Submissions(es: seq<Event>): seq<Packet> {
    if es == [] then [] else (if es[0].Submit? then [es[0].p] else []) + Submissions(es[1..])
  }

  /** The packets among `ps` that entry `e` waits to send. */
  function Mine(e: Entry, ps: seq<Packet>): seq<Packet> {
    if e.pro == PRO_IP then To(ps, e.ip) else []
  }

  predicate Asking(e: Entry) {
    e.state.WAITING? && e.ttl == WAITTIME
  }

  lemma SubmitAsking(a: Arp, p: Packet, i: nat)
    requires Inv(a) && i < CACHE_SZ && Asking(a.cache[i])
    ensures var e := a.cache[i]; SendDev(a, p).cache[i] == e.(pending := e.pending + Mine(e, [p]))
  {
    hide FreeFrom, CacheOk, To;
    var e := a.cache[i];
    ToOne(p, e.ip);
    if e.For(PRO_IP, p.dst) {
      LookupAt(a.cache, PRO_IP, p.dst, i);
    } else {
      assert e.pending + [] == e.pending;
    }
  }

  /** A message from another address leaves a live entry alone. */
  lemma OthersMessage(a: Arp, request: bool, pro: nat, sip: nat, sha: nat, i: nat)
    requires Inv(a) && i < CACHE_SZ && !a.cache[i].state.FREE? && !a.cache[i].For(pro, sip)
    ensures Recv(a, request, pro, sip, sha).cache[i] == a.cache[i]
  {
    hide FreeFrom, CacheOk;
  }

  lemma ClockAsking(a: Arp, delta: int, i: nat)
    requires Sized(a) && i < CACHE_SZ && Asking(a.cache[i]) && a.cache[i].retry > 0 && delta >= 1
    ensures Timer(a, delta).cache[i] == a.cache[i].(retry := a.cache[i].retry - 1)
  {
    TickAllAt(a.cache, delta, i);
  }

  lemma OneEvent(e: Event)
    ensures Clocks([e]) == if e.Clock? then 1 else 0
    ensures Submissions([e]) == if e.Submit? then [e.p] else []
  {
    assert [e][1..] == [];
    if e.Submit? {
      assert [e.p] + [] == [e.p];
    }
  }

  /** What one event does to an entry that waits for an answer. */
  lemma StepAsking(a: Arp, e: Event, i: nat)
    requires Inv(a) && i < CACHE_SZ && Asking(a.cache[i]) && Unanswered([e], a.cache[i].pro, a.cache[i].ip)
    requires Clocks([e]) <= a.cache[i].retry
    ensures var w := a.cache[i];
            Step(a, e).cache[i]
            == w.(retry := w.retry - Clocks([e]), pending := w.pending + Mine(w, Submissions([e])))
  {
    hide CacheOk, SendDev, Recv, Timer, To;
    var w := a.cache[i];
    assert e in [e];
    OneEvent(e);
    NothingTo(w.ip);
    assert w.pending + [] == w.pending;
    match e
    case Submit(p) => SubmitAsking(a, p, i);
    case Message(request, pro, sip, sha) => OthersMessage(a, request, pro, sip, sha, i);
    case Clock(delta) => ClockAsking(a, delta, i);
  }

  /**
   * In every run without an answer, whatever else is submitted, received or resolved: after k ticks
   * the entry has asked k times more, and holds its packets and all that were submitted for it.
   */
  lemma {:induction false} RetriesInEveryRun(a: Arp, es: seq<Event>, i: nat)
    requires Inv(a) && i < CACHE_SZ && Asking(a.cache[i])
    requires Unanswered(es, a.cache[i].pro, a.cache[i].ip) && Clocks(es) <= a.cache[i].retry
    ensures Inv(Run(a, es))
    ensures var w := a.cache[i];
            Run(a, es).cache[i]
            == w.(retry := w.retry - Clocks(es), pending := w.pending + Mine(w, Submissions(es)))
    decreases |es|
  {
    hide CacheOk, Step, To;
    var w := a.cache[i];
    if es == [] {
      NothingTo(w.ip);
      assert w.pending + [] == w.pending;
    } else {
      hide Inv;
      var one := [es[0]];
      assert es[0] in es;
      OneEvent(es[0]);
      assert Clocks(one) + Clocks(es[1..]) == Clocks(es);
      assert Submissions(one) + Submissions(es[1..]) == Submissions(es);
      StepAsking(a, es[0], i);
      StepInv(a, es[0]);
      RetriesInEveryRun(Step(a, es[0]), es[1..], i);
      ToConcat(Submissions(one), Submissions(es[1..]), w.ip);
      Bytes.Assoc(w.pending, Mine(w, Submissions(one)), Mine(w, Submissions(es[1..])));
    }
  }

  lemma StepInv(a: Arp, e: Event)
    requires Inv(a)
    ensures Inv(Step(a, e))
  {
    hide CacheOk, SendDev, Recv, Timer;
    match e
    case Submit(p) => SubmitKeeps(a, p);
    case Message(request, pro, sip, sha) => MessageKeeps(a, request, pro, sip, sha);
    case Clock(delta) => ClockKeeps(a, delta);
  }

  lemma {:induction false} RunThen(a: Arp, es: seq<Event>, e: Event)
    requires Sized(a)
    ensures Run(a, es + [e]) == Step(Run(a, es), e)
    decreases |es|
  {
    hide Step;
    if es == [] {
      assert es + [e] == [e] && [e][1..] == [];
    } else {
      assert (es + [e])[1..] == es[1..] + [e];
      RunThen(Step(a, es[0]), es[1..], e);
    }
  }

  /** A tick that frees entry i frees exactly what waited for its address. */
  lemma TickFrees(a: Arp, delta: int, i: nat)
    requires delta >= 1 && Inv(a) && i < CACHE_SZ && Asking(a.cache[i]) && a.cache[i].retry == 0 && a.cache[i].pro == PRO_IP
    ensures var b := Timer(a, delta);
            && b.cache[i].state.FREE? && b.cache[i].pending == []
            && b.fates == a.fates + FreeAll(DroppedAll(a.cache, delta))
            && To(DroppedAll(a.cache, delta), a.cache[i].ip) == a.cache[i].pending
  {
    hide CacheOk, To, Waiting, FreeAll;
    var c, d := a.cache, a.cache[i].ip;
    var c' := TickAll(c, delta);
    TickAllAt(c, delta, i);
    ClockKeeps(a, delta);
    TickLedger(c, delta, d);
    OnlyThere(c, i, d);
    assert Lookup(c', PRO_IP, d).None? by {
      NoLongerThere(c, delta, i, d);
    }
    NoneThere(c', d);
    assert To(DroppedAll(c, delta), d) + [] == To(DroppedAll(c, delta), d);
  }

  lemma NoLongerThere(c: seq<Entry>, delta: int, i: nat, d: nat)
    requires CacheOk(c) && i < |c| && c[i].For(PRO_IP, d) && Tick(c[i], delta).state.FREE?
    ensures Lookup(TickAll(c, delta), PRO_IP, d).None?
  {
    hide Tick, TickAll, Lookup, Tidy;
    var c' := TickAll(c, delta);
    forall j | 0 <= j < |c'|
      ensures !c'[j].For(PRO_IP, d)
    {
      TickAllAt(c, delta, j);
      TickOneKeeps(c[j], delta);
    }
  }

  /**
   * In every run without an answer a new entry is asked for again on each of four ticks; the fifth
   * frees it, and of the packets for its address exactly those it was given, in order.
   */
  lemma FreedOnTheFifthTick(a: Arp, es: seq<Event>, delta: int, i: nat)
    requires delta >= 1
    requires Inv(a) && i < CACHE_SZ && Asking(a.cache[i]) && a.cache[i].pro == PRO_IP
    requires a.cache[i].retry == REQ_RETRY && Clocks(es) == REQ_RETRY
    requires Unanswered(es, PRO_IP, a.cache[i].ip)
    ensures var w, b, d := Run(a, es), Run(a, es + [Clock(delta)]), a.cache[i].ip;
            && w.cache[i].state.WAITING? && b.cache[i].state.FREE? && b.cache[i].pending == []
            && b.fates == w.fates + FreeAll(DroppedAll(w.cache, delta))
            && To(DroppedAll(w.cache, delta), d) == a.cache[i].pending + To(Submissions(es), d)
  {
    hide CacheOk, To, FreeAll, DroppedAll;
    RetriesInEveryRun(a, es, i);
    RunThen(a, es, Clock(delta));
    TickFrees(Run(a, es), delta, i);
  }

  // --------------------------------------------------------------------------------- resolved entries

  /** No message comes from the address. */
  predicate Silent(es: seq<Event>, pro: nat, ip: nat) {
    forall e :: e in es && e.Message? ==> e.pro != pro || e.sip != ip
  }

  /** The time that goes by. */
  function Elapsed(es: seq<Event>): int {
    if es == [] then 0 else (if es[0].Clock? then es[0].delta else 0) + Elapsed(es[1..])
  }

  /** No tick reaches the lifetime: every partial sum of the ticks stays below it. */
  predicate Outlasts(ttl: int, es: seq<Event>) {
    forall k :: 0 < k <= |es| && es[k - 1].Clock? ==> Elapsed(es[..k]) < ttl
  }

  lemma OutlastsFirst(ttl: int, es: seq<Event>)
    requires es != [] && Outlasts(ttl, es)
    ensures es[0].Clock? ==> es[0].delta < ttl
    ensures Outlasts(ttl - (if es[0].Clock? then es[0].delta else 0), es[1..])
  {
    var rest := es[1..];
    if es[0].Clock? {
      var one := es[..1];
      assert one[1..] == [] && one[0] == es[0] && es[1 - 1].Clock?;
      assert Elapsed(one) == es[0].delta + Elapsed([]);
    }
    forall k | 0 < k <= |rest| && rest[k - 1].Clock?
      ensures Elapsed(rest[..k]) < ttl - (if es[0].Clock? then es[0].delta else 0)
    {
      assert es[k] == rest[k - 1] && es[..k + 1][1..] == rest[..k];
      assert Elapsed(es[..k + 1]) < ttl;
    }
  }

  lemma StepResolved(a: Arp, e: Event, i: nat)
    requires Inv(a) && i < CACHE_SZ && a.cache[i].state.RESOLVED? && Silent([e], a.cache[i].pro, a.cache[i].ip)
    requires e.Clock? ==> e.delta < a.cache[i].ttl
    ensures Step(a, e).cache[i] == if e.Clock? then a.cache[i].(ttl := a.cache[i].ttl - e.delta) else a.cache[i]
  {
    hide CacheOk, SendDev, Recv, FreeAll, DroppedAll;
    assert e in [e];
    match e
    case Submit(p) => SubmitResolved(a, p, i);
    case Message(request, pro, sip, sha) => OthersMessage(a, request, pro, sip, sha, i);
    case Clock(delta) =>
      TickAllAt(a.cache, delta, i);
  }

  lemma SubmitResolved(a: Arp, p: Packet, i: nat)
    requires Inv(a) && i < CACHE_SZ && a.cache[i].state.RESOLVED?
    ensures SendDev(a, p).cache[i] == a.cache[i]
  {
    hide CacheOk, FreeFrom;
  }

  /**
   * In every run without a message from the address, whatever else is submitted, received or freed:
   * a resolved entry stays, with its lifetime shortened by the time gone by, until that is used up.
   */
  lemma {:induction false} AgesInEveryRun(a: Arp, es: seq<Event>, i: nat)
    requires Inv(a) && i < CACHE_SZ && a.cache[i].state.RESOLVED?
    requires Silent(es, a.cache[i].pro, a.cache[i].ip) && Outlasts(a.cache[i].ttl, es)
    ensures Inv(Run(a, es)) && Run(a, es).cache[i] == a.cache[i].(ttl := a.cache[i].ttl - Elapsed(es))
    decreases |es|
  {
    hide CacheOk, Step, Outlasts;
    if es != [] {
      OutlastsFirst(a.cache[i].ttl, es);
      assert es[0] in es;
      StepResolved(a, es[0], i);
      StepInv(a, es[0]);
      AgesInEveryRun(Step(a, es[0]), es[1..], i);
    }
  }

  /** The tick that uses the lifetime up frees the entry, and no earlier one does. */
  lemma ExpiresExactly(a: Arp, es: seq<Event>, delta: int, i: nat)
    requires Inv(a) && i < CACHE_SZ && a.cache[i].state.RESOLVED?
    requires Silent(es, a.cache[i].pro, a.cache[i].ip) && Outlasts(a.cache[i].ttl, es)
    ensures Run(a, es + [Clock(delta)]).cache[i].state.FREE? <==> a.cache[i].ttl <= Elapsed(es) + delta
  {
    hide CacheOk, Outlasts, Silent;
    AgesInEveryRun(a, es, i);
    RunThen(a, es, Clock(delta));
    TickAllAt(Run(a, es).cache, delta, i);
  }
}
