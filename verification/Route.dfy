/**
 * The routing table of tapip/ip/route.c. Addresses and masks are in network order, and the list is
 * kept in descending order of the masks as a little-endian host reads them: as 32-bit numbers whose
 * lowest octet is the first one on the wire.
 */
module Route {
  import opened Wrappers
  import opened Bytes

  /** The 32 bits of an address in the order of transmission. */
  type Bits = b: seq<bool> | |b| == 32 witness seq(32, i => false)

  function And(a: Bits, b: Bits): Bits {
    seq(32, i requires 0 <= i < 32 => a[i] && b[i])
  }

  /** The contiguous mask with `len` leading ones. */
  function Mask(len: nat): Bits
    requires len <= 32
  {
    seq(32, i => i < len)
  }

  function Bit(b: bool): nat {
    if b then 1 else 0
  }

  function Octet(a: Bits, k: nat): nat
    requires k < 4
  {
    128 * Bit(a[8 * k]) + 64 * Bit(a[8 * k + 1]) + 32 * Bit(a[8 * k + 2]) + 16 * Bit(a[8 * k + 3])
    + 8 * Bit(a[8 * k + 4]) + 4 * Bit(a[8 * k + 5]) + 2 * Bit(a[8 * k + 6]) + Bit(a[8 * k + 7])
  }

  /** The number a little-endian host compares. */
  function Number(a: Bits): nat {
    Octet(a, 0) + 0x100 * Octet(a, 1) + 0x1_0000 * Octet(a, 2) + 0x100_0000 * Octet(a, 3)
  }

  /** struct rtentry with a contiguous mask; `info` stands for gateway, metric, flags and device. */
  datatype Entry = Entry(net: Bits, len: nat, info: nat)

  type Rt = e: Entry | e.len <= 32 witness Entry(seq(32, i => false), 0, 0)

  /** The comparison in rt_lookup. */
  predicate Hit(e: Rt, ip: Bits) {
    And(Mask(e.len), ip) == And(Mask(e.len), e.net)
  }

  /** rt_lookup: the first entry that matches. */
  function Lookup(t: seq<Rt>, ip: Bits): Option<Rt> {
    if t == [] then None else if Hit(t[0], ip) then Some(t[0]) else Lookup(t[1..], ip)
  }

  /** rt_add: in front of the first entry whose mask is not larger. */
  function Insert(t: seq<Rt>, e: Rt): seq<Rt> {
    if t == [] || Number(Mask(e.len)) >= Number(Mask(t[0].len)) then [e] + t
    else [t[0]] + Insert(t[1..], e)
  }

  lemma InsertStep(t: seq<Rt>, e: Rt)
    ensures Insert(t, e) == if t == [] || Number(Mask(e.len)) >= Number(Mask(t[0].len)) then [e] + t
                            else [t[0]] + Insert(t[1..], e)
  {
  }

  /** The table after adding `history`, oldest first. */
  function Table(history: seq<Rt>): seq<Rt> {
    if history == [] then [] else Insert(Table(history[..|history| - 1]), history[|history| - 1])
  }

  // ------------------------------------------------------------------------------ masks and prefixes

  /** Comparing under the mask is comparing the first `len` bits. */
  lemma HitIsPrefixMatch(e: Rt, ip: Bits)
    ensures Hit(e, ip) <==> ip[..e.len] == e.net[..e.len]
  {
    var x, y := And(Mask(e.len), ip), And(Mask(e.len), e.net);
    if x == y {
      forall i | 0 <= i < e.len
        ensures ip[i] == e.net[i]
      {
        assert x[i] == ip[i] && y[i] == e.net[i];
      }
    }
    if ip[..e.len] == e.net[..e.len] {
      forall i | 0 <= i < 32
        ensures x[i] == y[i]
      {
        assert i < e.len ==> ip[..e.len][i] == e.net[..e.len][i];
      }
    }
  }

  /** Octet k of a mask, from the number of its bits that fall into that octet. */
  function OctetOf(len: nat, k: nat): nat
    requires len <= 32 && k < 4
  {
    if len <= 8 * k then 0
    else if len >= 8 * k + 8 then 255
    else [128, 192, 224, 240, 248, 252, 254][len - 8 * k - 1]
  }

  lemma MaskOctet(len: nat, k: nat)
    requires len <= 32 && k < 4
    ensures Octet(Mask(len), k) == OctetOf(len, k)
  {
  }

  /** Read little-endian, longer masks are still the larger numbers. */
  lemma MaskOrder(p: nat, q: nat)
    requires p <= 32 && q <= 32
    ensures Number(Mask(p)) >= Number(Mask(q)) <==> p >= q
  {
    hide Number;
    if p < q {
      MaskRises(p, q);
    } else if q < p {
      MaskRises(q, p);
    }
  }

  lemma MaskRises(p: nat, q: nat)
    requires p < q <= 32
    ensures Number(Mask(p)) < Number(Mask(q))
  {
    hide Number, OctetOf;
    MaskNumber(p);
    MaskNumber(q);
    OctetsRise(p, q);
    assert OctetOf(p, 0) <= OctetOf(q, 0) && OctetOf(p, 1) <= OctetOf(q, 1);
    assert OctetOf(p, 2) <= OctetOf(q, 2) && OctetOf(p, 3) <= OctetOf(q, 3);
  }

  lemma MaskNumber(p: nat)
    requires p <= 32
    ensures Number(Mask(p))
            == OctetOf(p, 0) + 0x100 * OctetOf(p, 1) + 0x1_0000 * OctetOf(p, 2) + 0x100_0000 * OctetOf(p, 3)
  {
    hide Octet, OctetOf;
    MaskOctet(p, 0);
    MaskOctet(p, 1);
    MaskOctet(p, 2);
    MaskOctet(p, 3);
  }

  lemma OctetsRise(p: nat, q: nat)
    requires p < q <= 32
    ensures forall k :: 0 <= k < 4 ==> OctetOf(p, k) <= OctetOf(q, k)
    ensures OctetOf(p, p / 8) < OctetOf(q, p / 8)
  {
  }

  // ------------------------------------------------------------------------- longest prefix match

  /** Descending prefix length. */
  predicate Sorted(t: seq<Rt>) {
    |t| <= 1 || (t[0].len >= t[1].len && Sorted(t[1..]))
  }

  lemma {:induction false} InsertSorted(t: seq<Rt>, e: Rt)
    requires Sorted(t)
    ensures Sorted(Insert(t, e))
    decreases |t|
  {
    hide Number;
    if t != [] {
      MaskOrder(e.len, t[0].len);
      if e.len < t[0].len {
        InsertSorted(t[1..], e);
        var r := Insert(t[1..], e);
        assert ([t[0]] + r)[1..] == r;
      }
    }
  }

  lemma {:induction false} HeadIsLongest(t: seq<Rt>, ip: Bits)
    requires Sorted(t) && t != []
    ensures Lookup(t, ip).Some? ==> Lookup(t, ip).value.len <= t[0].len
    decreases |t|
  {
    hide Hit;
    if |t| > 1 {
      HeadIsLongest(t[1..], ip);
    }
  }

  /** The newer of two equally long matches wins. */
  function Better(best: Option<Rt>, e: Rt, ip: Bits): Option<Rt> {
    if Hit(e, ip) && (best.None? || e.len >= best.value.len) then Some(e) else best
  }

  lemma {:induction false} LookupAfterInsert(t: seq<Rt>, e: Rt, ip: Bits)
    requires Sorted(t)
    ensures Lookup(Insert(t, e), ip) == Better(Lookup(t, ip), e, ip)
    decreases |t|
  {
    hide Hit, Number;
    if t == [] {
      assert ([e] + t)[1..] == t;
    } else {
      MaskOrder(e.len, t[0].len);
      HeadIsLongest(t, ip);
      if e.len >= t[0].len {
        assert ([e] + t)[1..] == t;
      } else {
        LookupAfterInsert(t[1..], e, ip);
        assert ([t[0]] + Insert(t[1..], e))[1..] == Insert(t[1..], e);
        if |t| > 1 {
          HeadIsLongest(t[1..], ip);
        }
      }
    }
  }

  /** What routing asks for, over the history: the longest match, and the newest among those. */
  function LongestMatch(history: seq<Rt>, ip: Bits): Option<Rt> {
    if history == [] then None
    else Better(LongestMatch(history[..|history| - 1], ip), history[|history| - 1], ip)
  }

  lemma {:induction false} TableSorted(history: seq<Rt>)
    ensures Sorted(Table(history))
    decreases |history|
  {
    if history != [] {
      TableSorted(history[..|history| - 1]);
      InsertSorted(Table(history[..|history| - 1]), history[|history| - 1]);
    }
  }

  /** For every sequence of rt_add calls, first match in the list is longest prefix match. */
  lemma {:induction false} FirstMatchIsLongestMatch(history: seq<Rt>, ip: Bits)
    ensures Lookup(Table(history), ip) == LongestMatch(history, ip)
    decreases |history|
  {
    if history != [] {
      var h, e := history[..|history| - 1], history[|history| - 1];
      TableSorted(h);
      FirstMatchIsLongestMatch(h, ip);
      LookupAfterInsert(Table(h), e, ip);
    }
  }

  /** The result matches, nothing that matches is longer, and there is none only if nothing matches. */
  lemma {:induction false} LongestMatchMeans(history: seq<Rt>, ip: Bits)
    ensures LongestMatch(history, ip).None? <==> forall e :: e in history ==> !Hit(e, ip)
    ensures LongestMatch(history, ip).Some? ==>
              var r := LongestMatch(history, ip).value;
              r in history && Hit(r, ip) && forall e :: e in history && Hit(e, ip) ==> e.len <= r.len
    decreases |history|
  {
    hide Hit;
    if history != [] {
      var h, e := history[..|history| - 1], history[|history| - 1];
      LongestMatchMeans(h, ip);
      assert history == h + [e];
    }
  }

  // ------------------------------------------------------------------------------- the list in place

  class RouteTable {
    var rt_head: seq<Rt>

    constructor ()
      ensures rt_head == []
    {
      rt_head := [];
    }

    /** rt_add. */
    method Add(e: Rt)
      modifies this
      ensures rt_head == Insert(old(rt_head), e)
    {
      hide Number, Insert, Mask;
      ghost var t := rt_head;
      var i := 0;
      assert t[0..] == t && [] + Insert(t, e) == Insert(t, e);
      while i < |rt_head| && !(Number(Mask(e.len)) >= Number(Mask(rt_head[i].len)))
        invariant 0 <= i <= |t| && rt_head == t
        invariant Insert(t, e) == t[..i] + Insert(t[i..], e)
      {
        InsertStep(t[i..], e);
        assert t[i..][1..] == t[i + 1..] && t[..i] + [t[i]] == t[..i + 1];
        Assoc(t[..i], [t[i]], Insert(t[i + 1..], e));
        i := i + 1;
      }
      InsertStep(t[i..], e);
      Assoc(t[..i], [e], t[i..]);
      rt_head := rt_head[..i] + [e] + rt_head[i..];
    }

    /** rt_lookup. */
    method Find(ip: Bits) returns (r: Option<Rt>)
      ensures r == Lookup(rt_head, ip)
    {
      hide Hit;
      var i := 0;
      assert rt_head[0..] == rt_head;
      while i < |rt_head|
        invariant 0 <= i <= |rt_head|
        invariant Lookup(rt_head, ip) == Lookup(rt_head[i..], ip)
      {
        if Hit(rt_head[i], ip) {
          return Some(rt_head[i]);
        }
        assert rt_head[i..][1..] == rt_head[i + 1..];
        i := i + 1;
      }
      r := None;
    }
  }
}
