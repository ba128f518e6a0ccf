/** Every packet is sent or freed exactly once and in order, in every run of the ARP cache. */
module ArpProofs {
  import opened Wrappers
  import opened Arp
  import Bytes

  // ------------------------------------------------------------------------------ sequences of packets

  lemma {:induction false} ToConcat(a: seq<Packet>, b: seq<Packet>, d: nat)
    ensures To(a + b, d) == To(a, d) + To(b, d)
    decreases |b|
  {
    if b == [] {
      assert a + b == a;
    } else {
      assert (a + b)[..|a + b| - 1] == a + b[..|b| - 1];
      ToConcat(a, b[..|b| - 1], d);
    }
  }

  lemma {:induction false} ToAll(ps: seq<Packet>, d: nat)
    requires forall p :: p in ps ==> p.dst == d
    ensures To(ps, d) == ps
    decreases |ps|
  {
    if ps != [] {
      ToAll(ps[..|ps| - 1], d);
    }
  }

  lemma {:induction false} ToNone(ps: seq<Packet>, d: nat)
    requires forall p :: p in ps ==> p.dst != d
    ensures To(ps, d) == []
    decreases |ps|
  {
    if ps != [] {
      ToNone(ps[..|ps| - 1], d);
    }
  }

  lemma {:induction false} PacketsConcat(a: seq<Fate>, b: seq<Fate>)
    ensures PacketsOf(a + b) == PacketsOf(a) + PacketsOf(b)
    decreases |b|
  {
    if b == [] {
      assert a + b == a;
    } else {
      assert (a + b)[..|a + b| - 1] == a + b[..|b| - 1];
      PacketsConcat(a, b[..|b| - 1]);
    }
  }

  lemma {:induction false} PacketsAre(fs: seq<Fate>, ps: seq<Packet>)
    requires |fs| == |ps| && forall i :: 0 <= i < |fs| ==> fs[i].packet == ps[i]
    ensures PacketsOf(fs) == ps
    decreases |fs|
  {
    if fs != [] {
      PacketsAre(fs[..|fs| - 1], ps[..|ps| - 1]);
    }
  }

  /** Fates appended to the log extend the account of next hop d by the packets for d. */
  lemma FatesAppend(fs: seq<Fate>, gs: seq<Fate>, ps: seq<Packet>, d: nat)
    requires |gs| == |ps| && forall i :: 0 <= i < |gs| ==> gs[i].packet == ps[i]
    ensures To(PacketsOf(fs + gs), d) == To(PacketsOf(fs), d) + To(ps, d)
  {
    PacketsConcat(fs, gs);
    PacketsAre(gs, ps);
    ToConcat(PacketsOf(fs), ps, d);
  }

  // ---------------------------------------------------------------------------------- what waits where

  lemma {:induction false} WaitingAt(c: seq<Entry>, i: nat, d: nat)
    requires i < |c|
    ensures Waiting(c, d) == Waiting(c[..i], d) + To(c[i].pending, d) + Waiting(c[i + 1..], d)
    decreases i
  {
    hide To;
    if i > 0 {
      var rest := c[1..];
      WaitingAt(rest, i - 1, d);
      var a, x, b, first := Waiting(rest[..i - 1], d), To(c[i].pending, d), Waiting(c[i + 1..], d), To(c[0].pending, d);
      assert rest[i - 1] == c[i] && rest[..i - 1] == c[..i][1..] && rest[i..] == c[i + 1..] && c[..i][0] == c[0];
      assert Waiting(c[..i], d) == first + a && Waiting(c, d) == first + (a + x + b);
      Bytes.Assoc(first, a + x, b);
      Bytes.Assoc(first, a, x);
    } else {
      assert c[..0] == [] && Waiting(c[..0], d) == [];
      assert [] + To(c[0].pending, d) == To(c[0].pending, d);
    }
  }

  lemma {:induction false} WaitingNone(c: seq<Entry>, d: nat)
    requires forall i :: 0 <= i < |c| ==> To(c[i].pending, d) == []
    ensures Waiting(c, d) == []
    decreases |c|
  {
    if c != [] {
      WaitingNone(c[1..], d);
    }
  }

  /** An entry that is not live for d holds nothing for d. */
  lemma NotFor(e: Entry, d: nat)
    requires Tidy(e) && !e.For(PRO_IP, d)
    ensures To(e.pending, d) == []
  {
    if e.pending != [] {
      assert e.pending[0] in e.pending;
    }
    ToNone(e.pending, d);
  }

  /** Everything that waits for d waits in the one entry for d. */
  lemma OnlyThere(c: seq<Entry>, i: nat, d: nat)
    requires CacheOk(c) && i < |c| && c[i].For(PRO_IP, d)
    ensures Waiting(c[..i], d) == [] && Waiting(c[i + 1..], d) == []
    ensures Waiting(c, d) == c[i].pending
  {
    hide To, Waiting;
    forall j | 0 <= j < |c| && j != i
      ensures To(c[j].pending, d) == []
    {
      NotFor(c[j], d);
    }
    assert Tidy(c[i]);
    hide CacheOk;
    WaitingNone(c[..i], d);
    WaitingNone(c[i + 1..], d);
    WaitingAt(c, i, d);
    ToAll(c[i].pending, d);
  }

  lemma NoneThere(c: seq<Entry>, d: nat)
    requires CacheOk(c) && Lookup(c, PRO_IP, d).None?
    ensures Waiting(c, d) == []
  {
    forall j | 0 <= j < |c|
      ensures To(c[j].pending, d) == []
    {
      NotFor(c[j], d);
    }
    WaitingNone(c, d);
  }

  /** Replacing an entry changes only its own contribution. */
  lemma Replaced(c: seq<Entry>, i: nat, e: Entry, d: nat)
    requires i < |c| && To(e.pending, d) == To(c[i].pending, d)
    ensures Waiting(c[i := e], d) == Waiting(c, d)
  {
    WaitingAt(c, i, d);
    WaitingAt(c[i := e], i, d);
    assert c[i := e][..i] == c[..i] && c[i := e][i + 1..] == c[i + 1..];
  }

  lemma ReplacedThere(c: seq<Entry>, i: nat, e: Entry, d: nat)
    requires i < |c| && Waiting(c[..i], d) == [] && Waiting(c[i + 1..], d) == []
    ensures Waiting(c[i := e], d) == To(e.pending, d)
  {
    WaitingAt(c[i := e], i, d);
    assert c[i := e][..i] == c[..i] && c[i := e][i + 1..] == c[i + 1..];
  }

  // -------------------------------------------------------------------------------------- submitting

  lemma SubmitKeeps(a: Arp, p: Packet)
    requires Inv(a)
    ensures Inv(SendDev(a, p))
  {
  }

  /** One packet more in the entry for its next hop is one packet more at the end of what waits. */
  lemma QueueLedger(c: seq<Entry>, i: nat, e: Entry, p: Packet, d: nat)
    requires CacheOk(c) && i < |c|
    requires if c[i].state.FREE? then Lookup(c, PRO_IP, p.dst).None? && e.pending == [p]
             else c[i].For(PRO_IP, p.dst) && e.pending == c[i].pending + [p]
    ensures Waiting(c[i := e], d) == Waiting(c, d) + To([p], d)
  {
    assert Tidy(c[i]);
    hide To, Waiting;
    ToConcat(c[i].pending, [p], d);
    ToOne(p, d);
    NothingTo(d);
    if p.dst != d {
      Replaced(c, i, e, d);
    } else if c[i].state.FREE? {
      NoneThere(c, d);
      WaitingAt(c, i, d);
      ReplacedThere(c, i, e, d);
    } else {
      OnlyThere(c, i, d);
      ReplacedThere(c, i, e, d);
      ToAll(c[i].pending, d);
    }
  }

  /** A packet gets its fate at once only when nothing for its next hop waits. */
  lemma AtOnceLedger(a: Arp, p: Packet, f: Fate, d: nat)
    requires Inv(a) && f.packet == p
    requires Lookup(a.cache, PRO_IP, p.dst).Some? ==> a.cache[Lookup(a.cache, PRO_IP, p.dst).value].state.RESOLVED?
    ensures To(PacketsOf(a.fates + [f]), d) + Waiting(a.cache, d)
            == To(PacketsOf(a.fates), d) + Waiting(a.cache, d) + To([p], d)
  {
    hide To, Waiting, PacketsOf;
    FatesAppend(a.fates, [f], [p], d);
    ToOne(p, d);
    if p.dst == d {
      match Lookup(a.cache, PRO_IP, d)
      case None => NoneThere(a.cache, d);
      case Some(i) => OnlyThere(a.cache, i, d);
    }
  }

  lemma SubmitLedger(a: Arp, p: Packet, d: nat)
    requires Inv(a) && Ledger(a, d)
    ensures Ledger(SendDev(a, p), d)
  {
    hide To, Waiting, PacketsOf, CacheOk, FreeFrom;
    var b := SendDev(a, p);
    ToConcat(a.submitted, [p], d);
    match Lookup(a.cache, PRO_IP, p.dst)
    case Some(i) =>
      if a.cache[i].state.WAITING? {
        QueueLedger(a.cache, i, b.cache[i], p, d);
        Bytes.Assoc(To(PacketsOf(a.fates), d), Waiting(a.cache, d), To([p], d));
      } else {
        AtOnceLedger(a, p, Sent(p), d);
      }
    case None =>
      match FreeFrom(a.cache, a.next, CACHE_SZ)
      case None => AtOnceLedger(a, p, Freed(p), d);
      case Some(i) =>
        QueueLedger(a.cache, i, b.cache[i], p, d);
        Bytes.Assoc(To(PacketsOf(a.fates), d), Waiting(a.cache, d), To([p], d));
  }

  lemma ToOne(p: Packet, d: nat)
    ensures To([p], d) == if p.dst == d then [p] else []
  {
    assert [p][..0] == [];
  }

  // ---------------------------------------------------------------------------------------- messages

  lemma MessageKeeps(a: Arp, request: bool, pro: nat, sip: nat, sha: nat)
    requires Inv(a)
    ensures Inv(Recv(a, request, pro, sip, sha))
  {
  }

  /** Flushing entry i hands its packets over and leaves nothing of them behind. */
  lemma FlushLedger(c: seq<Entry>, i: nat, e: Entry, flushed: seq<Packet>, d: nat)
    requires CacheOk(c) && i < |c| && e.pending == []
    requires flushed == c[i].pending
    ensures To(flushed, d) + Waiting(c[i := e], d) == Waiting(c, d)
  {
    hide To, Waiting;
    NothingTo(d);
    if c[i].For(PRO_IP, d) {
      OnlyThere(c, i, d);
      ReplacedThere(c, i, e, d);
      ToAll(flushed, d);
    } else {
      NotFor(c[i], d);
      Replaced(c, i, e, d);
    }
  }

  lemma LearnLedger(a: Arp, request: bool, pro: nat, sip: nat, sha: nat, d: nat)
    requires Inv(a) && Ledger(a, d) && Lookup(a.cache, pro, sip).Some?
    ensures Ledger(Recv(a, request, pro, sip, sha), d)
  {
    hide To, Waiting, PacketsOf, FreeFrom, CacheOk, SendAll;
    var i := Lookup(a.cache, pro, sip).value;
    TidyAt(a.cache, i);
    var b := Recv(a, request, pro, sip, sha);
    var flushed := a.cache[i].pending;
    FatesAppend(a.fates, SendAll(flushed), flushed, d);
    FlushLedger(a.cache, i, b.cache[i], flushed, d);
    Bytes.Assoc(To(PacketsOf(a.fates), d), To(flushed, d), Waiting(b.cache, d));
  }

  lemma TidyAt(c: seq<Entry>, i: nat)
    requires CacheOk(c) && i < |c|
    ensures Tidy(c[i])
  {
  }

  lemma InsertLedger(a: Arp, request: bool, pro: nat, sip: nat, sha: nat, d: nat)
    requires Inv(a) && Ledger(a, d) && Lookup(a.cache, pro, sip).None?
    ensures Ledger(Recv(a, request, pro, sip, sha), d)
  {
    hide To, Waiting, PacketsOf, FreeFrom, CacheOk;
    var free := FreeFrom(a.cache, a.next, CACHE_SZ);
    if request && free.Some? {
      TidyAt(a.cache, free.value);
      NothingTo(d);
      Replaced(a.cache, free.value, Recv(a, request, pro, sip, sha).cache[free.value], d);
    }
  }

  lemma MessageLedger(a: Arp, request: bool, pro: nat, sip: nat, sha: nat, d: nat)
    requires Inv(a) && Ledger(a, d)
    ensures Ledger(Recv(a, request, pro, sip, sha), d)
  {
    hide Recv, Ledger, CacheOk;
    if Lookup(a.cache, pro, sip).Some? {
      LearnLedger(a, request, pro, sip, sha, d);
    } else {
      InsertLedger(a, request, pro, sip, sha, d);
    }
  }

  lemma NothingTo(d: nat)
    ensures To([], d) == []
  {
  }

  // ------------------------------------------------------------------------------------------- time

  lemma {:induction false} TickAllAt(c: seq<Entry>, delta: int, i: nat)
    requires i < |c|
    ensures TickAll(c, delta)[i] == Tick(c[i], delta)
    decreases i
  {
    if i > 0 {
      TickAllAt(c[1..], delta, i - 1);
    }
  }

  lemma ClockKeeps(a: Arp, delta: int)
    requires Inv(a)
    ensures Inv(Timer(a, delta))
  {
    hide Tidy, Tick, TickAll, FreeAll, DroppedAll;
    var c := TickAll(a.cache, delta);
    forall i | 0 <= i < |c|
      ensures Tidy(c[i])
      ensures !c[i].state.FREE? ==>
                !a.cache[i].state.FREE? && c[i].pro == a.cache[i].pro && c[i].ip == a.cache[i].ip
    {
      TickAllAt(a.cache, delta, i);
      TickOneKeeps(a.cache[i], delta);
    }
  }

  lemma TickOneKeeps(e: Entry, delta: int)
    requires Tidy(e)
    ensures var f := Tick(e, delta);
            Tidy(f) && (!f.state.FREE? ==> !e.state.FREE? && f.pro == e.pro && f.ip == e.ip)
  {
  }

  lemma CacheOkTail(c: seq<Entry>)
    requires CacheOk(c) && c != []
    ensures CacheOk(c[1..])
  {
  }

  /** What a tick drops for d, followed by what still waits, is what waited. */
  lemma {:induction false} TickLedger(c: seq<Entry>, delta: int, d: nat)
    requires CacheOk(c)
    ensures To(DroppedAll(c, delta), d) + Waiting(TickAll(c, delta), d) == Waiting(c, d)
    decreases |c|
  {
    hide To, CacheOk, Tick, Dropped;
    if c == [] {
      NothingTo(d);
    } else {
      var rest := c[1..];
      CacheOkTail(c);
      TickLedger(rest, delta, d);
      ToConcat(Dropped(c[0], delta), DroppedAll(rest, delta), d);
      assert ([Tick(c[0], delta)] + TickAll(rest, delta))[1..] == TickAll(rest, delta);
      TickOne(c, delta, d);
    }
  }

  /** Either the first entry has nothing for d, or nothing else has. */
  lemma TickOne(c: seq<Entry>, delta: int, d: nat)
    requires CacheOk(c) && c != []
    ensures var t := To(Tick(c[0], delta).pending, d);
            && To(Dropped(c[0], delta), d) + t == To(c[0].pending, d)
            && (To(c[0].pending, d) == [] || Waiting(c[1..], d) == [])
            && (t == [] || To(Dropped(c[0], delta), d) == [])
  {
    hide To, Waiting, CacheOk;
    NothingTo(d);
    TidyAt(c, 0);
    if c[0].For(PRO_IP, d) {
      OnlyThere(c, 0, d);
    } else {
      NotFor(c[0], d);
    }
  }

  lemma ClockLedger(a: Arp, delta: int, d: nat)
    requires Inv(a) && Ledger(a, d)
    ensures Ledger(Timer(a, delta), d)
  {
    hide To, Waiting, PacketsOf, CacheOk;
    var dropped := DroppedAll(a.cache, delta);
    FatesAppend(a.fates, FreeAll(dropped), dropped, d);
    TickLedger(a.cache, delta, d);
    Bytes.Assoc(To(PacketsOf(a.fates), d), To(dropped, d), Waiting(TickAll(a.cache, delta), d));
  }

  // --------------------------------------------------------------------------------------- every run

  lemma StepKeeps(a: Arp, e: Event, d: nat)
    requires Inv(a) && Ledger(a, d)
    ensures Inv(Step(a, e)) && Ledger(Step(a, e), d)
  {
    hide CacheOk, Ledger, SendDev, Recv, Timer;
    match e
    case Submit(p) =>
      SubmitKeeps(a, p);
      SubmitLedger(a, p, d);
    case Message(request, pro, sip, sha) =>
      MessageKeeps(a, request, pro, sip, sha);
      MessageLedger(a, request, pro, sip, sha, d);
    case Clock(delta) =>
      ClockKeeps(a, delta);
      ClockLedger(a, delta, d);
  }

  /**
   * In every run the cache keeps one live entry per address and packets only in waiting entries;
   * and for every next hop the packets that were sent or freed, followed by those that still wait,
   * are exactly the packets submitted for it, in order: each has one fate, and FIFO.
   */
  lemma {:induction false} EveryPacketOnce(a: Arp, es: seq<Event>, d: nat)
    requires Inv(a) && Ledger(a, d)
    ensures Inv(Run(a, es)) && Ledger(Run(a, es), d)
    decreases |es|
  {
    hide CacheOk, Ledger, Step;
    if es != [] {
      StepKeeps(a, es[0], d);
      EveryPacketOnce(Step(a, es[0]), es[1..], d);
    }
  }

  /** The cache that arp_cache_init leaves is where runs start. */
  lemma FreshCacheIsClean(a: Arp, d: nat)
    requires Sized(a) && a.submitted == [] && a.fates == []
    requires forall i :: 0 <= i < |a.cache| ==> a.cache[i].state.FREE? && a.cache[i].pending == []
    ensures Inv(a) && Ledger(a, d)
  {
    NothingTo(d);
    WaitingNone(a.cache, d);
  }
}
