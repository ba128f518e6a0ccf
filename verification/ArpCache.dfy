/** The ARP cache as the source runs it: an array of entries updated in place. */
module ArpCache {
  import opened Wrappers
  import opened Arp
  import Bytes

  class Cache {
    const arp_cache: array<Entry>
    var next: nat
    var submitted: seq<Packet>
    var fates: seq<Fate>

    ghost predicate Valid()
      reads this
    {
      arp_cache.Length == CACHE_SZ && next < CACHE_SZ
    }

    ghost function Abs(): (a: Arp)
      reads this, arp_cache
      requires Valid()
      ensures Sized(a)
    {
      Arp(arp_cache[..], next, submitted, fates)
    }

    /** arp_cache_init. */
    constructor ()
      ensures Valid() && fresh(arp_cache) && submitted == [] && fates == []
      ensures forall i :: 0 <= i < CACHE_SZ ==> arp_cache[i].state.FREE? && arp_cache[i].pending == []
    {
      arp_cache := new Entry[CACHE_SZ](i => Entry(FREE, 0, 0, 0, 0, 0, []));
      next, submitted, fates := 0, [], [];
    }

    /** arp_lookup. */
    method Find(pro: nat, ip: nat) returns (i: nat)
      requires Valid()
      ensures Lookup(arp_cache[..], pro, ip) == if i < CACHE_SZ then Some(i) else None
    {
      hide Lookup;
      ghost var c := arp_cache[..];
      i := 0;
      assert c[0..] == c;
      while i < CACHE_SZ && !arp_cache[i].For(pro, ip)
        invariant i <= CACHE_SZ
        invariant Lookup(c, pro, ip) == Shifted(i, Lookup(c[i..], pro, ip))
      {
        LookupUnfold(c[i..], pro, ip);
        assert c[i..][0] == c[i] && c[i..][1..] == c[i + 1..];
        i := i + 1;
      }
      LookupUnfold(c[i..], pro, ip);
    }

    /** arp_alloc: the round-robin search; CACHE_SZ when the cache is full. */
    method Alloc() returns (i: nat)
      requires Valid()
      modifies this`next
      ensures Valid()
      ensures FreeFrom(arp_cache[..], old(next), CACHE_SZ) == if i < CACHE_SZ then Some(i) else None
      ensures i < CACHE_SZ ==> next == (i + 1) % CACHE_SZ
      ensures i >= CACHE_SZ ==> next == old(next)
    {
      hide FreeFrom;
      ghost var c := arp_cache[..];
      var k: nat := 0;
      while k < CACHE_SZ && !arp_cache[next].state.FREE?
        invariant k <= CACHE_SZ && next < CACHE_SZ
        invariant next == if old(next) + k < CACHE_SZ then old(next) + k else old(next) + k - CACHE_SZ
        invariant FreeFrom(c, old(next), CACHE_SZ) == FreeFrom(c, next, CACHE_SZ - k)
      {
        FreeUnfold(c, next, CACHE_SZ - k);
        Bytes.ModSmall(next + 1, CACHE_SZ);
        next := (next + 1) % CACHE_SZ;
        k := k + 1;
      }
      FreeUnfold(c, next, CACHE_SZ - k);
      if k >= CACHE_SZ {
        return CACHE_SZ;
      }
      i := next;
      next := (next + 1) % CACHE_SZ;
    }

    /** ip_send_dev for a next hop on the link. */
    method Send(p: Packet)
      requires Valid()
      modifies this, arp_cache
      ensures Valid() && Abs() == SendDev(old(Abs()), p)
    {
      submitted := submitted + [p];
      var i := Find(PRO_IP, p.dst);
      if i < CACHE_SZ {
        var e := arp_cache[i];
        if e.state.WAITING? {
          arp_cache[i] := e.(pending := e.pending + [p]);
        } else {
          fates := fates + [Sent(p)];
        }
        return;
      }
      i := Alloc();
      if i < CACHE_SZ {
        arp_cache[i] := Entry(WAITING, PRO_IP, p.dst, arp_cache[i].hw, WAITTIME, REQ_RETRY, [p]);
      } else {
        fates := fates + [Freed(p)];
      }
    }

    /** arp_queue_send. */
    method QueueSend(i: nat)
      requires Valid() && i < CACHE_SZ
      modifies this`fates, arp_cache
      ensures arp_cache[..] == old(arp_cache[..])[i := old(arp_cache[i]).(pending := [])]
      ensures fates == old(fates) + SendAll(old(arp_cache[i].pending))
    {
      ghost var c, ps := arp_cache[..], arp_cache[i].pending;
      var k := 0;
      while arp_cache[i].pending != []
        invariant k + |arp_cache[i].pending| == |ps| && arp_cache[i].pending == ps[k..]
        invariant arp_cache[..] == c[i := c[i].(pending := ps[k..])]
        invariant fates == old(fates) + SendAll(ps)[..k]
        decreases |arp_cache[i].pending|
      {
        fates := fates + [Sent(arp_cache[i].pending[0])];
        arp_cache[i] := arp_cache[i].(pending := arp_cache[i].pending[1..]);
        k := k + 1;
      }
    }

    /** arp_recv for a message addressed to us. */
    method Receive(request: bool, pro: nat, sip: nat, sha: nat)
      requires Valid()
      modifies this, arp_cache
      ensures Valid() && Abs() == Recv(old(Abs()), request, pro, sip, sha)
    {
      var i := Find(pro, sip);
      if i < CACHE_SZ {
        arp_cache[i] := arp_cache[i].(hw := sha);
        if arp_cache[i].state.WAITING? {
          QueueSend(i);
        }
        arp_cache[i] := arp_cache[i].(state := RESOLVED, ttl := TIMEOUT);
      } else if request {
        i := Alloc();
        if i < CACHE_SZ {
          arp_cache[i] := Entry(RESOLVED, pro, sip, sha, TIMEOUT, REQ_RETRY, []);
        }
      }
    }

    /** arp_queue_drop. */
    method QueueDrop(i: nat)
      requires Valid() && i < CACHE_SZ
      modifies this`fates, arp_cache
      ensures arp_cache[..] == old(arp_cache[..])[i := old(arp_cache[i]).(pending := [])]
      ensures fates == old(fates) + FreeAll(old(arp_cache[i].pending))
    {
      ghost var c, ps := arp_cache[..], arp_cache[i].pending;
      var k := 0;
      while arp_cache[i].pending != []
        invariant k + |arp_cache[i].pending| == |ps| && arp_cache[i].pending == ps[k..]
        invariant arp_cache[..] == c[i := c[i].(pending := ps[k..])]
        invariant fates == old(fates) + FreeAll(ps)[..k]
        decreases |arp_cache[i].pending|
      {
        fates := fates + [Freed(arp_cache[i].pending[0])];
        arp_cache[i] := arp_cache[i].(pending := arp_cache[i].pending[1..]);
        k := k + 1;
      }
    }

    /** The loop body of arp_timer. */
    method Age(i: nat, delta: int)
      requires Valid() && i < CACHE_SZ
      modifies this`fates, arp_cache
      ensures arp_cache[..] == old(arp_cache[..])[i := Tick(old(arp_cache[i]), delta)]
      ensures fates == old(fates) + FreeAll(Dropped(old(arp_cache[i]), delta))
    {
      if arp_cache[i].state.FREE? {
        return;
      }
      arp_cache[i] := arp_cache[i].(ttl := arp_cache[i].ttl - delta);
      if arp_cache[i].ttl <= 0 {
        var free := arp_cache[i].state.RESOLVED?;
        if arp_cache[i].state.WAITING? {
          arp_cache[i] := arp_cache[i].(retry := arp_cache[i].retry - 1);
          free := arp_cache[i].retry < 0;
        }
        if free {
          if arp_cache[i].state.WAITING? {
            QueueDrop(i);
          }
          arp_cache[i] := arp_cache[i].(state := FREE);
        } else {
          arp_cache[i] := arp_cache[i].(ttl := WAITTIME);
        }
      }
    }

    /** arp_timer. */
    method Elapse(delta: int)
      requires Valid()
      modifies this`fates, arp_cache
      ensures Valid() && Abs() == Timer(old(Abs()), delta)
    {
      hide Tick, TickAll, DroppedAll, FreeAll, Dropped;
      ghost var c := arp_cache[..];
      ghost var log := fates;
      var i := 0;
      TickNone(c[..0], delta);
      while i < CACHE_SZ
        invariant 0 <= i <= CACHE_SZ
        invariant arp_cache[..] == TickAll(c[..i], delta) + c[i..]
        invariant fates == log + FreeAll(DroppedAll(c[..i], delta))
      {
        ghost var done := TickAll(c[..i], delta);
        SetAt(done, c[i..], Tick(c[i], delta));
        assert arp_cache[i] == (done + c[i..])[i] == c[i];
        TickNext(c, delta, i);
        Age(i, delta);
        i := i + 1;
      }
      assert c[..i] == c;
    }
  }

  lemma LookupUnfold(c: seq<Entry>, pro: nat, ip: nat)
    ensures Lookup(c, pro, ip)
            == if c == [] then None
               else if c[0].For(pro, ip) then Some(0)
               else Shifted(1, Lookup(c[1..], pro, ip))
  {
  }

  lemma FreeUnfold(c: seq<Entry>, next: nat, k: nat)
    requires next < |c|
    ensures FreeFrom(c, next, k)
            == if k == 0 then None
               else if c[next].state.FREE? then Some(next)
               else FreeFrom(c, (next + 1) % |c|, k - 1)
  {
  }

  lemma SetAt(a: seq<Entry>, b: seq<Entry>, e: Entry)
    requires b != []
    ensures (a + b)[|a| := e] == a + [e] + b[1..]
  {
  }

  lemma TickNone(c: seq<Entry>, delta: int)
    requires c == []
    ensures TickAll(c, delta) == [] && FreeAll(DroppedAll(c, delta)) == []
  {
  }

  function Shifted(i: nat, r: Option<nat>): Option<nat> {
    match r
    case None => None
    case Some(j) => Some(i + j)
  }

  lemma {:induction false} TickConcat(a: seq<Entry>, b: seq<Entry>, delta: int)
    ensures TickAll(a + b, delta) == TickAll(a, delta) + TickAll(b, delta)
    ensures DroppedAll(a + b, delta) == DroppedAll(a, delta) + DroppedAll(b, delta)
    decreases |a|
  {
    hide Tick, Dropped;
    if a == [] {
      assert a + b == b;
    } else {
      var rest := a[1..];
      TickConcat(rest, b, delta);
      assert (a + b)[0] == a[0] && (a + b)[1..] == rest + b;
      Bytes.Assoc([Tick(a[0], delta)], TickAll(rest, delta), TickAll(b, delta));
      Bytes.Assoc(Dropped(a[0], delta), DroppedAll(rest, delta), DroppedAll(b, delta));
    }
  }

  lemma {:induction false} FreeAllConcat(a: seq<Packet>, b: seq<Packet>)
    ensures FreeAll(a + b) == FreeAll(a) + FreeAll(b)
  {
    assert FreeAll(a + b) == FreeAll(a) + FreeAll(b);
  }

  /** One entry further. */
  lemma TickNext(c: seq<Entry>, delta: int, i: nat)
    requires i < |c|
    ensures TickAll(c[..i + 1], delta) == TickAll(c[..i], delta) + [Tick(c[i], delta)]
    ensures FreeAll(DroppedAll(c[..i + 1], delta))
            == FreeAll(DroppedAll(c[..i], delta)) + FreeAll(Dropped(c[i], delta))
  {
    assert c[..i + 1] == c[..i] + [c[i]];
    TickConcat(c[..i], [c[i]], delta);
    assert [c[i]][1..] == [];
    assert DroppedAll([c[i]], delta) == Dropped(c[i], delta) + [] == Dropped(c[i], delta);
    FreeAllConcat(DroppedAll(c[..i], delta), Dropped(c[i], delta));
  }
}
