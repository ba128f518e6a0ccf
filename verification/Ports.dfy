/** The bind table of tapip/tcp/tcp_sock.c; ports are in host order. */
module Ports {

  const BPORT_MIN := 0x8000
  const BPORT_MAX := 0xf000
  const BPORTS := BPORT_MAX - BPORT_MIN + 1

  predicate InRange(p: int) {
    BPORT_MIN <= p <= BPORT_MAX
  }

  function Succ(p: int): int {
    if p + 1 > BPORT_MAX then BPORT_MIN else p + 1
  }

  /** Steps from `from` to `to` around the range. */
  function Distance(from: int, to: int): (d: int)
    requires InRange(from) && InRange(to)
    ensures 0 <= d < BPORTS
  {
    if from <= to then to - from else to - from + BPORTS
  }

  // ------------------------------------------------------------------------------------ pigeonhole

  function Interval(lo: int, hi: int): set<int>
    decreases hi - lo
  {
    if lo >= hi then {} else Interval(lo, hi - 1) + {hi - 1}
  }

  lemma {:induction false} IntervalIs(lo: int, hi: int)
    requires lo <= hi
    ensures |Interval(lo, hi)| == hi - lo
    ensures forall p :: p in Interval(lo, hi) <==> lo <= p < hi
    decreases hi - lo
  {
    if lo < hi {
      IntervalIs(lo, hi - 1);
    }
  }

  lemma SubsetSize(a: set<int>, b: set<int>)
    ensures (forall p :: p in a ==> p in b) ==> |a| <= |b|
  {
    if forall p :: p in a ==> p in b {
      assert b == a + (b - a);
    }
  }

  /** Fewer sockets than ports: some port of the range is unused, wherever the sockets are bound. */
  lemma SomePortUnused(bound: set<int>) returns (free: int)
    requires |bound| < BPORTS
    ensures InRange(free) && free !in bound
  {
    hide Interval;
    var all := Interval(BPORT_MIN, BPORT_MAX + 1);
    IntervalIs(BPORT_MIN, BPORT_MAX + 1);
    SubsetSize(all, bound);
    free :| free in all && free !in bound;
  }

  // ------------------------------------------------------------------------------------- the table

  class PortTable {
    var bound: set<int>   // the ports in the bind hash table
    var bfree: int
    var defport: int      // the static of tcp_get_port

    /** Every bound socket takes one from bfree. */
    ghost predicate Valid()
      reads this
    {
      InRange(defport) && bfree + |bound| == BPORTS
    }

    constructor ()
      ensures Valid() && bound == {}
    {
      bound, bfree, defport := {}, BPORTS, BPORT_MIN;
    }

    /**
     * tcp_get_port: 0 exactly when bfree is used up; otherwise the search ends, and at the first
     * unused port of the range, counted around from defport.
     */
    method GetPort() returns (port: int)
      requires Valid()
      modifies this`defport
      ensures Valid()
      ensures port == 0 <==> bfree <= 0
      ensures port != 0 ==> InRange(port) && port !in bound && defport == Succ(port)
      ensures port != 0 ==>
                forall p :: InRange(p) && Distance(old(defport), p) < Distance(old(defport), port) ==> p in bound
    {
      if bfree <= 0 {
        return 0;
      }
      ghost var free := SomePortUnused(bound);
      ghost var start := defport;
      while defport in bound
        invariant InRange(defport)
        invariant Distance(start, defport) <= Distance(start, free)
        invariant forall p :: InRange(p) && Distance(start, p) < Distance(start, defport) ==> p in bound
        decreases Distance(start, free) - Distance(start, defport)
      {
        assert defport != free;
        defport := Succ(defport);
      }
      port := defport;
      defport := Succ(defport);
    }

    /** tcp_set_sport: bind to a given port, or to any when 0 is asked for. */
    method SetPort(wanted: int) returns (port: int)
      requires Valid() && 0 <= wanted < 0x1_0000
      modifies this
      ensures Valid()
      ensures wanted != 0 ==> port == (if wanted in old(bound) then -1 else wanted)
      ensures wanted == 0 ==> (port == -1 <==> old(bfree) <= 0)
      ensures wanted == 0 && port != -1 ==> InRange(port)
      ensures port == -1 ==> bound == old(bound) && bfree == old(bfree)
      ensures port != -1 ==> port !in old(bound) && bound == old(bound) + {port} && bfree == old(bfree) - 1
    {
      port := wanted;
      if wanted != 0 && wanted in bound {
        return -1;
      }
      if wanted == 0 {
        port := GetPort();
        if port == 0 {
          return -1;
        }
      }
      bfree := bfree - 1;
      bound := bound + {port};
    }

    /** tcp_unbhash: a socket gives its port back; without one nothing happens. */
    method Unbind(port: int)
      requires Valid()
      modifies this
      ensures Valid() && bound == old(bound) - {port}
      ensures bfree == old(bfree) + (if port in old(bound) then 1 else 0)
    {
      if port in bound {
        bfree := bfree + 1;
        bound := bound - {port};
      }
    }
  }
}
