/**
 * The ARP cache of tapip/arp/arp_cache.c with its users arp_recv and ip_send_dev on values; each
 * handler is one step. A packet handed to netdev_tx counts as sent.
 */
module Arp {
  import opened Wrappers

  const CACHE_SZ := 20
  const TIMEOUT := 600
  const WAITTIME := 1
  const REQ_RETRY := 4
  const PRO_IP := 0x0800

  /** A packet with its next hop. */
  datatype Packet = Packet(id: nat, dst: nat)

  datatype State = FREE | WAITING | RESOLVED

  /** struct arpentry. */
  datatype Entry = Entry(
    state: State, pro: nat, ip: nat, hw: nat, ttl: int, retry: int, pending: seq<Packet>)
  {
    predicate For(pro: nat, ip: nat) {
      !state.FREE? && this.pro == pro && this.ip == ip
    }
  }

  /** What became of a packet. */
  datatype Fate = Sent(packet: Packet) | Freed(packet: Packet)

  /** The cache, the static `next` of arp_alloc, every packet submitted and every fate, in order. */
  datatype Arp = Arp(cache: seq<Entry>, next: nat, submitted: seq<Packet>, fates: seq<Fate>)

  // ------------------------------------------------------------------------------------- operations

  /** arp_lookup: the first live entry for the address. */
  function Lookup(c: seq<Entry>, pro: nat, ip: nat): (r: Option<nat>)
    ensures r.Some? ==> r.value < |c| && c[r.value].For(pro, ip)
    ensures r.None? ==> forall i :: 0 <= i < |c| ==> !c[i].For(pro, ip)
  {
    if c == [] then None
    else if c[0].For(pro, ip) then Some(0)
    else match Lookup(c[1..], pro, ip)
      case None => None
      case Some(i) => Some(i + 1)
  }

  /** The round-robin search of arp_alloc, `k` entries at most, from `next` on. */
  function FreeFrom(c: seq<Entry>, next: nat, k: nat): (r: Option<nat>)
    requires next < |c|
    ensures r.Some? ==> r.value < |c| && c[r.value].state.FREE?
    decreases k
  {
    if k == 0 then None
    else if c[next].state.FREE? then Some(next)
    else FreeFrom(c, (next + 1) % |c|, k - 1)
  }

  function SendAll(ps: seq<Packet>): (r: seq<Fate>)
    ensures |r| == |ps| && forall i :: 0 <= i < |ps| ==> r[i] == Sent(ps[i])
  {
    if ps == [] then [] else [Sent(ps[0])] + SendAll(ps[1..])
  }

  function FreeAll(ps: seq<Packet>): (r: seq<Fate>)
    ensures |r| == |ps| && forall i :: 0 <= i < |ps| ==> r[i] == Freed(ps[i])
  {
    if ps == [] then [] else [Freed(ps[0])] + FreeAll(ps[1..])
  }

  predicate Sized(a: Arp) {
    |a.cache| == CACHE_SZ && a.next < CACHE_SZ
  }

  /** ip_send_dev for a next hop on the link. */
  function SendDev(a: Arp, p: Packet): (b: Arp)
    requires Sized(a)
    ensures Sized(b)
  {
    var s := a.(submitted := a.submitted + [p]);
    match Lookup(a.cache, PRO_IP, p.dst)
    case Some(i) =>
      if a.cache[i].state.WAITING?
      then s.(cache := a.cache[i := a.cache[i].(pending := a.cache[i].pending + [p])])
      else s.(fates := a.fates + [Sent(p)])
    case None =>
      match FreeFrom(a.cache, a.next, CACHE_SZ)
      case None => s.(fates := a.fates + [Freed(p)])
      case Some(i) =>
        var e := Entry(WAITING, PRO_IP, p.dst, a.cache[i].hw, WAITTIME, REQ_RETRY, [p]);
        s.(cache := a.cache[i := e], next := (i + 1) % CACHE_SZ)
  }

  /** arp_recv for a message that is addressed to us: learn, flush, or insert on a request. */
  function Recv(a: Arp, request: bool, pro: nat, sip: nat, sha: nat): (b: Arp)
    requires Sized(a)
    ensures Sized(b)
  {
    match Lookup(a.cache, pro, sip)
    case Some(i) =>
      var e := a.cache[i];
      var flushed := if e.state.WAITING? then e.pending else [];
      a.(cache := a.cache[i := e.(hw := sha, state := RESOLVED, ttl := TIMEOUT,
                                  pending := if e.state.WAITING? then [] else e.pending)],
         fates := a.fates + SendAll(flushed))
    case None =>
      if !request then a
      else match FreeFrom(a.cache, a.next, CACHE_SZ)
        case None => a
        case Some(i) =>
          a.(cache := a.cache[i := Entry(RESOLVED, pro, sip, sha, TIMEOUT, REQ_RETRY, [])],
             next := (i + 1) % CACHE_SZ)
  }

  /** arp_timer on one entry. */
  function Tick(e: Entry, delta: int): Entry {
    var ttl := e.ttl - delta;
    if e.state.FREE? then e
    else if ttl > 0 then e.(ttl := ttl)
    else if e.state.RESOLVED? then e.(ttl := ttl, state := FREE)
    else if e.retry - 1 < 0 then e.(ttl := ttl, retry := e.retry - 1, state := FREE, pending := [])
    else e.(ttl := WAITTIME, retry := e.retry - 1)
  }

  /** What arp_queue_drop frees on the way. */
  function Dropped(e: Entry, delta: int): seq<Packet> {
    if e.state.WAITING? && Tick(e, delta).state.FREE? then e.pending else []
  }

  function TickAll(c: seq<Entry>, delta: int): (r: seq<Entry>)
    ensures |r| == |c|
  {
    if c == [] then [] else [Tick(c[0], delta)] + TickAll(c[1..], delta)
  }

  function DroppedAll(c: seq<Entry>, delta: int): seq<Packet> {
    if c == [] then [] else Dropped(c[0], delta) + DroppedAll(c[1..], delta)
  }

  /** arp_timer. */
  function Timer(a: Arp, delta: int): Arp {
    a.(cache := TickAll(a.cache, delta), fates := a.fates + FreeAll(DroppedAll(a.cache, delta)))
  }

  datatype Event = Submit(p: Packet) | Message(request: bool, pro: nat, sip: nat, sha: nat) | Clock(delta: int)

  function Step(a: Arp, e: Event): (b: Arp)
    requires Sized(a)
    ensures Sized(b)
  {
    match e
    case Submit(p) => SendDev(a, p)
    case Message(request, pro, sip, sha) => Recv(a, request, pro, sip, sha)
    case Clock(delta) => Timer(a, delta)
  }

  function Run(a: Arp, es: seq<Event>): (b: Arp)
    requires Sized(a)
    ensures Sized(b)
    decreases |es|
  {
    if es == [] then a else Run(Step(a, es[0]), es[1..])
  }

  // ------------------------------------------------------------------------------------- invariants

  /** Only waiting entries hold packets, and only packets for their own address. */
  predicate Tidy(e: Entry) {
    && (e.state.WAITING? || e.pending == [])
    && (forall p :: p in e.pending ==> p.dst == e.ip && e.pro == PRO_IP)
  }

  /** At most one live entry per protocol and address; every entry tidy. */
  predicate CacheOk(c: seq<Entry>) {
    && (forall i :: 0 <= i < |c| ==> Tidy(c[i]))
    && (forall i, j :: 0 <= i < j < |c| && !c[i].state.FREE? ==> !c[j].For(c[i].pro, c[i].ip))
  }

  /** The packets among `ps` for next hop d, in order. */
  function To(ps: seq<Packet>, d: nat): seq<Packet> {
    if ps == [] then [] else To(ps[..|ps| - 1], d) + (if ps[|ps| - 1].dst == d then [ps[|ps| - 1]] else [])
  }

  function PacketsOf(fs: seq<Fate>): seq<Packet> {
    if fs == [] then [] else PacketsOf(fs[..|fs| - 1]) + [fs[|fs| - 1].packet]
  }

  /** The packets for d that wait in the cache. */
  function Waiting(c: seq<Entry>, d: nat): seq<Packet> {
    if c == [] then [] else To(c[0].pending, d) + Waiting(c[1..], d)
  }

  /** For next hop d: packets with a fate, then packets waiting, are the packets submitted, in order. */
  predicate Ledger(a: Arp, d: nat) {
    To(PacketsOf(a.fates), d) + Waiting(a.cache, d) == To(a.submitted, d)
  }

  predicate Inv(a: Arp) {
    Sized(a) && CacheOk(a.cache)
  }
}
