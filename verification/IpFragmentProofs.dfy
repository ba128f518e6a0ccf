/** Fragment, deliver in any order with repetitions, reassemble: the datagram comes back once. */
module IpFragmentProofs {
  import opened Wrappers
  import opened Bytes
  import opened IpFragment

  // ------------------------------------------------------------------------ what the splitter makes

  function EndOf(p: Packet): nat {
    p.Off() + |p.payload|
  }

  /** `p` is a non-empty piece of `data` at its own offset. */
  predicate PieceOf(p: Packet, key: Key, header: seq<byte>, data: seq<byte>) {
    && p.key == key && p.header == header && 0 < |p.payload|
    && EndOf(p) <= |data| && p.payload == data[p.Off()..EndOf(p)]
  }

  /** The pieces from offset `from` on: adjacent, in order, up to the end; only the last lacks MF. */
  predicate Chain(fs: seq<Packet>, key: Key, header: seq<byte>, data: seq<byte>, from: nat) {
    && fs != [] && fs[0].Off() == from && EndOf(fs[|fs| - 1]) == |data|
    && (forall j :: 0 <= j < |fs| ==> PieceOf(fs[j], key, header, data))
    && (forall j :: 0 <= j < |fs| ==> (fs[j].MoreFragments() <==> j < |fs| - 1))
    && (forall j :: 0 < j < |fs| ==> EndOf(fs[j - 1]) == fs[j].Off())
  }

  lemma PieceDecodes(key: Key, header: seq<byte>, data: seq<byte>, off: nat, more: bool)
    requires off % 8 == 0 && off < 65536
    ensures Piece(key, header, data, off, more).Off() == off
    ensures Piece(key, header, data, off, more).MoreFragments() == more
  {
  }

  /** One fragment of the payload. */
  lemma PieceIs(key: Key, header: seq<byte>, data: seq<byte>, from: nat, n: nat, more: bool)
    requires from % 8 == 0 && from < 65536 && 0 < n && from + n <= |data|
    ensures var p := Piece(key, header, data[from..from + n], from, more);
            PieceOf(p, key, header, data) && p.Off() == from && EndOf(p) == from + n && p.MoreFragments() == more
  {
    PieceDecodes(key, header, data[from..from + n], from, more);
  }

  /** A fragment in front of the fragments that follow it. */
  lemma ChainFirst(p: Packet, gs: seq<Packet>, key: Key, header: seq<byte>, data: seq<byte>)
    requires PieceOf(p, key, header, data) && p.MoreFragments() && Chain(gs, key, header, data, EndOf(p))
    ensures Chain([p] + gs, key, header, data, p.Off())
  {
    hide PieceOf, Packet.Off, Packet.MoreFragments, EndOf;
    var fs := [p] + gs;
    assert fs[|fs| - 1] == gs[|gs| - 1];
    forall j | 0 <= j < |fs|
      ensures PieceOf(fs[j], key, header, data) && (fs[j].MoreFragments() <==> j < |fs| - 1)
      ensures j > 0 ==> EndOf(fs[j - 1]) == fs[j].Off()
    {
      if j > 0 {
        assert fs[j] == gs[j - 1];
        assert j > 1 ==> fs[j - 1] == gs[j - 2];
      }
    }
  }

  lemma ChainOne(p: Packet, key: Key, header: seq<byte>, data: seq<byte>)
    requires PieceOf(p, key, header, data) && !p.MoreFragments() && EndOf(p) == |data|
    ensures Chain([p], key, header, data, p.Off())
  {
    hide PieceOf, Packet.Off, Packet.MoreFragments, EndOf;
  }

  /** Fragments fit the MTU, start at multiples of 8 and partition the payload. */
  lemma {:induction false} SplitPartitions(
    key: Key, header: seq<byte>, data: seq<byte>, from: nat, mlen: nat)
    requires mlen >= 8 && mlen % 8 == 0 && from % 8 == 0 && from < |data| <= 65535
    ensures Chain(Split(key, header, data[from..], from, mlen, false), key, header, data, from)
    ensures forall p :: p in Split(key, header, data[from..], from, mlen, false) ==>
                          p.Off() % 8 == 0 && p.Len() <= |header| + mlen
    decreases |data| - from
  {
    hide Chain, PieceOf, Packet.Off, Packet.MoreFragments, EndOf;
    var rest := data[from..];
    var n := Min(mlen, |rest|);
    assert rest[..n] == data[from..from + n];
    var p := Piece(key, header, data[from..from + n], from, |rest| > mlen);
    PieceIs(key, header, data, from, n, |rest| > mlen);
    if |rest| > mlen {
      var gs := Split(key, header, data[from + mlen..], from + mlen, mlen, false);
      assert rest[mlen..] == data[from + mlen..];
      SplitPartitions(key, header, data, from + mlen, mlen);
      ChainFirst(p, gs, key, header, data);
      assert Split(key, header, rest, from, mlen, false) == [p] + gs;
    } else {
      assert rest == data[from..from + n];
      ChainOne(p, key, header, data);
      assert Split(key, header, rest, from, mlen, false) == [p];
    }
  }

  /** Where each piece starts, and its flag: the last one has the bit carried over. */
  lemma {:induction false} SplitPlaces(
    key: Key, header: seq<byte>, data: seq<byte>, off: nat, mlen: nat, more: bool, j: nat)
    requires mlen >= 8 && mlen % 8 == 0 && off % 8 == 0 && off + |data| <= 65535
    requires j < |Split(key, header, data, off, mlen, more)|
    ensures var fs := Split(key, header, data, off, mlen, more);
            fs[j].Off() == off + j * mlen && fs[j].MoreFragments() == (j < |fs| - 1 || more)
    decreases |data|
  {
    hide Packet.Off, Packet.MoreFragments, Piece;
    PieceDecodes(key, header, if |data| > mlen then data[..mlen] else data, off, |data| > mlen || more);
    if |data| > mlen && j > 0 {
      SplitPlaces(key, header, data[mlen..], off + mlen, mlen, more, j - 1);
      assert mlen + (j - 1) * mlen == j * mlen;
    }
  }

  predicate IsFragment(p: Packet) {
    p.Off() != 0 || p.MoreFragments()
  }

  /** Every piece at its place in the datagram that `p` belongs to, and with the flag that belongs there. */
  predicate WellCut(p: Packet, fs: seq<Packet>, mlen: nat) {
    forall j :: 0 <= j < |fs| ==>
      fs[j].Off() == p.Off() + j * mlen && fs[j].MoreFragments() == (j < |fs| - 1 || p.MoreFragments())
  }

  function Bit5(x: nat): nat {
    x / 32 % 2
  }

  lemma Bit5Shift(x: nat)
    ensures Bit5(x + 256) == Bit5(x)
  {
    assert (x + 256) / 32 == x / 32 + 8;
  }

  lemma {:induction false} Bit5Low(k: nat, low: nat)
    ensures Bit5(k * 256 + low) == Bit5(low)
    decreases k
  {
    hide Bit5;
    if k > 0 {
      Bit5Low(k - 1, low);
      Bit5Shift((k - 1) * 256 + low);
      assert k * 256 + low == (k - 1) * 256 + low + 256;
    }
  }

  /** The bit carried over is bit 5 of the offset field. */
  lemma CarriedIsBit5(p: Packet)
    ensures Carried(p) <==> Bit5(p.fragoff) == 1
    ensures p.Off() == 0 ==> !Carried(p)
  {
    var low, high := p.fragoff % 256, p.fragoff / 256 % 256;
    TopBits(low, high);
    Bit5Low(p.fragoff / 256, low);
    assert p.fragoff == p.fragoff / 256 * 256 + low;
    if p.Off() == 0 {
      assert low == 0;
    }
  }

  lemma TopBits(low: nat, high: nat)
    requires low < 256 && high < 256
    ensures (low * 256 + high) / 0x2000 == low / 32
  {
    var a, b := low / 32, low % 32;
    assert low * 256 + high == a * 0x2000 + (b * 256 + high);
  }

  /**
   * A packet is cut as if it began at offset 0, and its last piece gets a bit of the offset in place
   * of MF: the pieces are right if and only if the packet is no fragment at all.
   */
  lemma RefragmentExactly(p: Packet, mtu: nat)
    requires |p.header| + 8 <= mtu && 0 < |p.payload| <= 65535
    ensures var m := MaxLen(mtu, |p.header|);
            WellCut(p, Split(p.key, p.header, p.payload, 0, m, Carried(p)), m) <==> !IsFragment(p)
  {
    hide Split, Packet.Off, Packet.MoreFragments, Carried;
    var m := MaxLen(mtu, |p.header|);
    var fs := Split(p.key, p.header, p.payload, 0, m, Carried(p));
    assert fs != [] by {
      SplitSome(p.key, p.header, p.payload, m, Carried(p));
    }
    CarriedIsBit5(p);
    forall j | 0 <= j < |fs|
      ensures fs[j].Off() == j * m && fs[j].MoreFragments() == (j < |fs| - 1 || Carried(p))
    {
      SplitPlaces(p.key, p.header, p.payload, 0, m, Carried(p), j);
    }
    assert fs[0].Off() == 0 * m == 0 && fs[|fs| - 1].MoreFragments() == Carried(p);
  }

  lemma SplitSome(key: Key, header: seq<byte>, data: seq<byte>, mlen: nat, more: bool)
    requires mlen >= 8 && data != []
    ensures Split(key, header, data, 0, mlen, more) != []
  {
  }

  /** A first fragment that is cut again: the last piece says that the datagram ends there. */
  lemma FirstFragmentLosesMf(p: Packet, mtu: nat)
    requires |p.header| + 8 <= mtu && 0 < |p.payload| <= 65535 && p.fragoff == 0x2000
    ensures p.Off() == 0 && p.MoreFragments()
    ensures var fs := Split(p.key, p.header, p.payload, 0, MaxLen(mtu, |p.header|), Carried(p));
            fs != [] && !fs[|fs| - 1].MoreFragments()
  {
    hide Split;
    var m := MaxLen(mtu, |p.header|);
    var fs := Split(p.key, p.header, p.payload, 0, m, Carried(p));
    SplitSome(p.key, p.header, p.payload, m, Carried(p));
    SplitPlaces(p.key, p.header, p.payload, 0, m, Carried(p), |fs| - 1);
    CarriedIsBit5(p);
  }

  /** Later pieces start at or after the end of earlier ones. */
  lemma {:induction false} ChainOrder(
    fs: seq<Packet>, key: Key, header: seq<byte>, data: seq<byte>, i: nat, j: nat)
    requires Chain(fs, key, header, data, 0) && i < j < |fs|
    ensures EndOf(fs[i]) <= fs[j].Off()
    decreases j
  {
    if i < j - 1 {
      ChainOrder(fs, key, header, data, i, j - 1);
    }
  }

  // ------------------------------------------------------------------------ what has been collected

  /** The pieces lo .. hi-1 whose index is in `got`, in order. */
  function Select(fs: seq<Packet>, got: set<nat>, lo: nat, hi: nat): (r: seq<Packet>)
    requires lo <= hi <= |fs|
    decreases hi - lo
  {
    if lo == hi then []
    else Select(fs, got, lo, hi - 1) + (if hi - 1 in got then [fs[hi - 1]] else [])
  }

  lemma {:induction false} SelectSplit(fs: seq<Packet>, got: set<nat>, lo: nat, mid: nat, hi: nat)
    requires lo <= mid <= hi <= |fs|
    ensures Select(fs, got, lo, hi) == Select(fs, got, lo, mid) + Select(fs, got, mid, hi)
    decreases hi - mid
  {
    if mid < hi {
      SelectSplit(fs, got, lo, mid, hi - 1);
    }
  }

  lemma {:induction false} SelectSame(fs: seq<Packet>, a: set<nat>, b: set<nat>, lo: nat, hi: nat)
    requires lo <= hi <= |fs|
    requires forall j :: lo <= j < hi ==> (j in a <==> j in b)
    ensures Select(fs, a, lo, hi) == Select(fs, b, lo, hi)
    decreases hi - lo
  {
    if lo < hi {
      SelectSame(fs, a, b, lo, hi - 1);
    }
  }

  function One(fs: seq<Packet>, got: set<nat>, i: nat): seq<Packet>
    requires i < |fs|
  {
    if i in got then [fs[i]] else []
  }

  lemma SelectOne(fs: seq<Packet>, got: set<nat>, i: nat)
    requires i < |fs|
    ensures Select(fs, got, i, i + 1) == One(fs, got, i)
  {
    assert Select(fs, got, i, i) == [];
  }

  /** A selection around index i: the smaller ones, the piece itself if present, the larger ones. */
  lemma SelectAround(fs: seq<Packet>, got: set<nat>, i: nat, below: seq<Packet>, above: seq<Packet>)
    requires i < |fs|
    requires below == Select(fs, got, 0, i) && above == Select(fs, got, i + 1, |fs|)
    ensures Select(fs, got, 0, |fs|) == below + One(fs, got, i) + above
  {
    var rest := Select(fs, got, i, |fs|);
    assert Select(fs, got, 0, |fs|) == below + rest by {
      SelectSplit(fs, got, 0, i, |fs|);
    }
    assert rest == One(fs, got, i) + above by {
      SelectSplit(fs, got, i, i + 1, |fs|);
      SelectOne(fs, got, i);
    }
    Assoc(below, One(fs, got, i), above);
  }

  /** Adding index i links its piece in between the smaller and the larger ones. */
  lemma SelectInsert(fs: seq<Packet>, got: set<nat>, i: nat, below: seq<Packet>, above: seq<Packet>)
    requires i < |fs| && i !in got
    requires below == Select(fs, got, 0, i) && above == Select(fs, got, i + 1, |fs|)
    ensures Select(fs, got, 0, |fs|) == below + above
    ensures Select(fs, got + {i}, 0, |fs|) == below + [fs[i]] + above
  {
    SelectAround(fs, got, i, below, above);
    SelectSame(fs, got, got + {i}, 0, i);
    SelectSame(fs, got, got + {i}, i + 1, |fs|);
    SelectAround(fs, got + {i}, i, below, above);
    assert below + [] == below;
  }

  /** Total number of octets collected. */
  function Total(pkts: seq<Packet>): nat {
    if pkts == [] then 0 else Total(pkts[..|pkts| - 1]) + |pkts[|pkts| - 1].payload|
  }

  lemma {:induction false} TotalConcat(a: seq<Packet>, b: seq<Packet>)
    ensures Total(a + b) == Total(a) + Total(b)
    decreases |b|
  {
    if b == [] {
      assert a + b == a;
    } else {
      assert (a + b)[..|a + b| - 1] == a + b[..|b| - 1];
      TotalConcat(a, b[..|b| - 1]);
    }
  }

  lemma TotalInsert(below: seq<Packet>, p: Packet, above: seq<Packet>)
    ensures Total(below + [p] + above) == Total(below + above) + |p.payload|
  {
    TotalConcat(below, above);
    TotalConcat(below + [p], above);
    assert (below + [p])[..|below|] == below;
  }

  /** Offset up to which the first `m` pieces reach. */
  function Reach(fs: seq<Packet>, m: nat): nat
    requires m <= |fs|
  {
    if m == 0 then 0 else EndOf(fs[m - 1])
  }

  /** The counter equals the full size only when every piece is there. */
  lemma {:induction false} TotalOfSelect(
    fs: seq<Packet>, key: Key, header: seq<byte>, data: seq<byte>, got: set<nat>, m: nat)
    requires Chain(fs, key, header, data, 0) && m <= |fs|
    ensures Total(Select(fs, got, 0, m)) <= Reach(fs, m)
    ensures Total(Select(fs, got, 0, m)) == Reach(fs, m) <==> All(m, got)
    decreases m
  {
    hide Chain, PieceOf, Packet.Off;
    if m > 0 {
      hide Reach, Select, Total, All, One;
      var p, s := fs[m - 1], Select(fs, got, 0, m - 1);
      TotalOfSelect(fs, key, header, data, got, m - 1);
      ReachIs(fs, key, header, data, m - 1);
      PieceFull(p, key, header, data);
      SelectLast(fs, got, m);
      TotalConcat(s, One(fs, got, m - 1));
      TotalOne(fs, got, m - 1);
      AllNext(m - 1, got);
    }
  }

  lemma AllNext(n: nat, got: set<nat>)
    ensures All(n + 1, got) <==> All(n, got) && n in got
  {
  }

  lemma TotalOne(fs: seq<Packet>, got: set<nat>, i: nat)
    requires i < |fs|
    ensures Total(One(fs, got, i)) == if i in got then |fs[i].payload| else 0
  {
    assert [fs[i]][..0] == [];
  }

  lemma PieceFull(p: Packet, key: Key, header: seq<byte>, data: seq<byte>)
    requires PieceOf(p, key, header, data)
    ensures 0 < |p.payload|
  {
  }

  lemma JoinedLast(s: seq<Packet>, p: Packet)
    ensures Joined(s + [p], |p.header|) == Joined(s, |p.header|) + p.payload
  {
    assert (s + [p])[..|s|] == s;
    assert p.From(|p.header|) == p.payload;
  }

  lemma SelectLast(fs: seq<Packet>, got: set<nat>, m: nat)
    requires 0 < m <= |fs|
    ensures Select(fs, got, 0, m) == Select(fs, got, 0, m - 1) + One(fs, got, m - 1)
  {
  }

  /** A fragment begins where those before it reach. */
  lemma ReachIs(fs: seq<Packet>, key: Key, header: seq<byte>, data: seq<byte>, m: nat)
    requires Chain(fs, key, header, data, 0) && m < |fs|
    ensures PieceOf(fs[m], key, header, data) && Reach(fs, m) == fs[m].Off() && Reach(fs, m + 1) == EndOf(fs[m])
  {
    hide PieceOf, Packet.Off, Packet.MoreFragments, EndOf;
  }

  lemma PieceExtends(p: Packet, key: Key, header: seq<byte>, data: seq<byte>)
    requires PieceOf(p, key, header, data)
    ensures EndOf(p) <= |data| && p.header == header && data[..p.Off()] + p.payload == data[..EndOf(p)]
  {
    hide Packet.Off;
    assert data[..p.Off()] + data[p.Off()..EndOf(p)] == data[..EndOf(p)];
  }

  /** All pieces joined are the payload. */
  lemma {:induction false} JoinedIsPayload(
    fs: seq<Packet>, key: Key, header: seq<byte>, data: seq<byte>, got: set<nat>, m: nat)
    requires Chain(fs, key, header, data, 0) && m <= |fs| && All(m, got)
    ensures Reach(fs, m) <= |data| && Joined(Select(fs, got, 0, m), |header|) == data[..Reach(fs, m)]
    decreases m
  {
    hide Chain, PieceOf, Packet.Off, EndOf;
    if m > 0 {
      hide Reach, Select, Joined;
      JoinedIsPayload(fs, key, header, data, got, m - 1);
      var p := fs[m - 1];
      ReachIs(fs, key, header, data, m - 1);
      PieceExtends(p, key, header, data);
      SelectLast(fs, got, m);
      assert m - 1 in got;
      JoinedLast(Select(fs, got, 0, m - 1), p);
    }
  }

  predicate All(n: nat, got: set<nat>) {
    forall j :: 0 <= j < n ==> j in got
  }

  // --------------------------------------------------------------------------- one record at work

  /** The record `f` has collected exactly the pieces in `got`. */
  predicate Collected(f: Frag, fs: seq<Packet>, got: set<nat>, header: seq<byte>, data: seq<byte>)
    requires fs != []
  {
    var n := |fs|;
    && f.pkts == Select(fs, got, 0, n) && f.rsize == Total(f.pkts) && !f.complete
    && (f.first <==> 0 in got) && (f.last <==> n - 1 in got)
    && (f.last ==> f.size == |data|)
    && (f.hlen == 0 || f.hlen == |header|) && (f.hlen == 0 ==> got <= {n - 1})
  }

  /** The backward search passes everything that starts higher. */
  lemma {:induction false} SearchSkips(a: seq<Packet>, b: seq<Packet>, off: nat)
    requires forall j :: 0 <= j < |b| ==> off < b[j].Off()
    requires a != [] ==> a[|a| - 1].Off() <= off
    ensures Search(a + b, off)
            == if a == [] then At(0) else if a[|a| - 1].Off() == off then Duplicate else At(|a|)
    decreases |b|
  {
    if b == [] {
      assert a + b == a;
    } else {
      var c := b[..|b| - 1];
      assert (a + b)[|a + b| - 1] == b[|b| - 1] && (a + b)[..|a + b| - 1] == a + c;
      SearchSkips(a, c, off);
    }
  }

  /** Every selected packet is one of the pieces in the range. */
  lemma {:induction false} SelectMember(fs: seq<Packet>, got: set<nat>, lo: nat, hi: nat, j: nat)
    requires lo <= hi <= |fs| && j < |Select(fs, got, lo, hi)|
    ensures exists i :: lo <= i < hi && i in got && Select(fs, got, lo, hi)[j] == fs[i]
    decreases hi - lo
  {
    var s := Select(fs, got, lo, hi - 1);
    if hi - 1 in got && j == |s| {
      assert Select(fs, got, lo, hi)[j] == fs[hi - 1];
    } else {
      SelectMember(fs, got, lo, hi - 1, j);
    }
  }

  /** Selected pieces above index i start higher. */
  lemma AboveStartsHigher(
    fs: seq<Packet>, key: Key, header: seq<byte>, data: seq<byte>, got: set<nat>, i: nat, j: nat)
    requires Chain(fs, key, header, data, 0) && i < |fs| && j < |Select(fs, got, i + 1, |fs|)|
    ensures fs[i].Off() < Select(fs, got, i + 1, |fs|)[j].Off()
  {
    SelectMember(fs, got, i + 1, |fs|, j);
    var k :| i + 1 <= k < |fs| && Select(fs, got, i + 1, |fs|)[j] == fs[k];
    ChainOrder(fs, key, header, data, i, k);
    assert PieceOf(fs[i], key, header, data);
  }

  /** The last selected piece below index i ends at or before it. */
  lemma BelowEndsLower(
    fs: seq<Packet>, key: Key, header: seq<byte>, data: seq<byte>, got: set<nat>, i: nat)
    requires Chain(fs, key, header, data, 0) && i < |fs| && Select(fs, got, 0, i) != []
    ensures var below := Select(fs, got, 0, i);
            && EndOf(below[|below| - 1]) <= fs[i].Off()
            && PieceOf(below[|below| - 1], key, header, data)
  {
    var below := Select(fs, got, 0, i);
    SelectMember(fs, got, 0, i, |below| - 1);
    var k :| 0 <= k < i && below[|below| - 1] == fs[k];
    ChainOrder(fs, key, header, data, k, i);
    assert PieceOf(fs[k], key, header, data);
  }

  /** Where the search puts a piece. */
  lemma SearchFindsPlace(
    fs: seq<Packet>, key: Key, header: seq<byte>, data: seq<byte>, got: set<nat>, i: nat)
    requires Chain(fs, key, header, data, 0) && i < |fs|
    ensures Search(Select(fs, got, 0, |fs|), fs[i].Off())
            == if i in got then Duplicate else At(|Select(fs, got, 0, i)|)
  {
    var below, above := Select(fs, got, 0, i), Select(fs, got, i + 1, |fs|);
    SelectAround(fs, got, i, below, above);
    forall j | 0 <= j < |above|
      ensures fs[i].Off() < above[j].Off()
    {
      AboveStartsHigher(fs, key, header, data, got, i, j);
    }
    if below != [] {
      BelowEndsLower(fs, key, header, data, got, i);
    }
    SearchSkips(below + One(fs, got, i), above, fs[i].Off());
  }

  lemma FirstSelected(fs: seq<Packet>, got: set<nat>)
    requires fs != [] && 0 in got
    ensures Select(fs, got, 0, |fs|) != [] && Select(fs, got, 0, |fs|)[0] == fs[0]
  {
    hide Select;
    var above := Select(fs, got, 1, |fs|);
    assert Select(fs, got, 0, 0) == [] by {
      SelectEmpty(fs, got);
    }
    SelectAround(fs, got, 0, [], above);
  }

  lemma SelectEmpty(fs: seq<Packet>, got: set<nat>)
    ensures Select(fs, got, 0, 0) == []
  {
  }

  /** A complete record joins to the datagram. */
  lemma JoinGivesDatagram(
    f: Frag, fs: seq<Packet>, key: Key, header: seq<byte>, data: seq<byte>, got: set<nat>)
    requires Chain(fs, key, header, data, 0) && |header| + |data| <= MAX_PACKET && All(|fs|, got)
    requires f.pkts == Select(fs, got, 0, |fs|) && f.hlen == |header| && f.size == |data|
    ensures f.pkts != [] && Join(f) == Some(Packet(key, header, 0, data))
  {
    hide Select, Joined, Packet.Off, Packet.MoreFragments;
    JoinedIsPayload(fs, key, header, data, got, |fs|);
    FirstSelected(fs, got);
    var p := fs[0];
    assert p.key == key && p.header == header && Reach(fs, |fs|) == |data| by {
      ChainEnds(fs, key, header, data);
    }
    assert data[..|data|] == data && (p.header + p.payload)[..|header|] == header;
  }

  lemma ChainEnds(fs: seq<Packet>, key: Key, header: seq<byte>, data: seq<byte>)
    requires Chain(fs, key, header, data, 0)
    ensures fs[0].key == key && fs[0].header == header && Reach(fs, |fs|) == |data|
  {
    hide Packet.Off, Packet.MoreFragments;
    assert PieceOf(fs[0], key, header, data);
  }

  lemma LinkBetween(g: Frag, below: seq<Packet>, p: Packet, above: seq<Packet>)
    requires g.pkts == below + above && g.rsize == Total(g.pkts)
    ensures var h := g.Link(|below|, p);
            h.pkts == below + [p] + above && h.rsize == Total(h.pkts)
  {
    assert g.pkts[..|below|] == below && g.pkts[|below|..] == above;
    TotalInsert(below, p, above);
  }

  /** What linking a new piece does to the record, whichever branch sets the flags before. */
  lemma LinkCollects(
    g: Frag, fs: seq<Packet>, got: set<nat>, header: seq<byte>, data: seq<byte>, i: nat, below: seq<Packet>)
    requires i < |fs| && i !in got && below == Select(fs, got, 0, i)
    requires Total(Select(fs, got + {i}, 0, |fs|)) == |data| <==> All(|fs|, got + {i})
    requires g.pkts == Select(fs, got, 0, |fs|) && g.rsize == Total(g.pkts) && !g.complete
    requires (g.first <==> 0 in got + {i}) && (g.last <==> |fs| - 1 in got + {i})
    requires g.last ==> g.size == |data|
    requires |header| > 0 && (g.hlen == |header| || (g.hlen == 0 && got + {i} <= {|fs| - 1}))
    ensures |below| <= |g.pkts|
    ensures var h := g.Link(|below|, fs[i]);
            && Collected(h.(complete := false), fs, got + {i}, header, data)
            && (h.complete <==> All(|fs|, got + {i}))
  {
    var above := Select(fs, got, i + 1, |fs|);
    SelectInsert(fs, got, i, below, above);
    LinkBetween(g, below, fs[i], above);
    assert All(|fs|, got + {i}) ==> 0 in got + {i} && |fs| - 1 in got + {i};
  }

  /** The last fragment says where the payload ends. */
  lemma LastSaysSize(f: Frag, fs: seq<Packet>, key: Key, header: seq<byte>, data: seq<byte>)
    requires Chain(fs, key, header, data, 0) && !f.complete && !f.last
    ensures Insert(f, fs[|fs| - 1])
            == Insertion(f.(last := true, size := |data|).Link(|f.pkts|, fs[|fs| - 1]), true)
  {
    hide Packet.Off, Packet.MoreFragments;
  }

  lemma InsertLast(
    f: Frag, fs: seq<Packet>, key: Key, header: seq<byte>, data: seq<byte>, got: set<nat>)
    requires Chain(fs, key, header, data, 0) && |fs| >= 2 && Collected(f, fs, got, header, data)
    requires |fs| - 1 !in got && |header| > 0
    ensures var i := |fs| - 1;
            var r := Insert(f, fs[i]);
            && r.ok && (r.frag.complete <==> All(|fs|, got + {i}))
            && Collected(r.frag.(complete := false), fs, got + {i}, header, data)
  {
    hide Chain, Insert, Select, Total, Frag.Link;
    var i := |fs| - 1;
    var below := Select(fs, got, 0, i);
    AllThere(fs, key, header, data, got + {i});
    SelectLast(fs, got, |fs|);
    assert below + [] == below;
    assert below == f.pkts;
    LinkCollects(f.(last := true, size := |data|), fs, got, header, data, i, below);
    LastSaysSize(f, fs, key, header, data);
  }

  lemma AllThere(fs: seq<Packet>, key: Key, header: seq<byte>, data: seq<byte>, got: set<nat>)
    requires Chain(fs, key, header, data, 0)
    ensures Total(Select(fs, got, 0, |fs|)) == |data| <==> All(|fs|, got)
  {
    hide Total, Select, All;
    TotalOfSelect(fs, key, header, data, got, |fs|);
    ChainEnds(fs, key, header, data);
  }

  lemma MiddlePiece(fs: seq<Packet>, key: Key, header: seq<byte>, data: seq<byte>, i: nat)
    requires Chain(fs, key, header, data, 0) && i < |fs| - 1
    ensures fs[i].MoreFragments() && fs[i].header == header && PieceOf(fs[i], key, header, data)
  {
    hide Packet.Off, Packet.MoreFragments;
  }

  /** Neither the header check nor the overlap check stops a piece of the same datagram. */
  lemma InsertMiddle(
    f: Frag, fs: seq<Packet>, key: Key, header: seq<byte>, data: seq<byte>, got: set<nat>, i: nat)
    requires Chain(fs, key, header, data, 0) && i < |fs| - 1 && Collected(f, fs, got, header, data)
    requires i !in got
    ensures var below := |Select(fs, got, 0, i)|;
            && below <= |f.pkts|
            && Insert(f, fs[i])
               == Insertion(f.(hlen := |header|, first := f.first || fs[i].Off() == 0).Link(below, fs[i]), true)
  {
    hide Select, Search, Packet.Off, Packet.MoreFragments, Chain, Frag.Link;
    var below := Select(fs, got, 0, i);
    MiddlePiece(fs, key, header, data, i);
    SearchFindsPlace(fs, key, header, data, got, i);
    assert below != [] ==> EndOf(f.pkts[|below| - 1]) <= fs[i].Off() && f.pkts[|below| - 1].header == header by {
      SelectInsert(fs, got, i, below, Select(fs, got, i + 1, |fs|));
      if below != [] {
        BelowEndsLower(fs, key, header, data, got, i);
      }
    }
  }

  lemma InsertNormal(
    f: Frag, fs: seq<Packet>, key: Key, header: seq<byte>, data: seq<byte>, got: set<nat>, i: nat)
    requires Chain(fs, key, header, data, 0) && i < |fs| - 1 && |header| > 0
    requires Collected(f, fs, got, header, data) && i !in got
    ensures var r := Insert(f, fs[i]);
            && r.ok && (r.frag.complete <==> All(|fs|, got + {i}))
            && Collected(r.frag.(complete := false), fs, got + {i}, header, data)
  {
    hide Chain, Insert, Select, Total, Frag.Link, Packet.Off;
    var g := f.(hlen := |header|, first := f.first || fs[i].Off() == 0);
    FirstIffZero(fs, key, header, data, i);
    AllThere(fs, key, header, data, got + {i});
    LinkCollects(g, fs, got, header, data, i, Select(fs, got, 0, i));
    InsertMiddle(f, fs, key, header, data, got, i);
  }

  lemma FirstIffZero(fs: seq<Packet>, key: Key, header: seq<byte>, data: seq<byte>, i: nat)
    requires Chain(fs, key, header, data, 0) && i < |fs|
    ensures fs[i].Off() == 0 <==> i == 0
  {
    assert PieceOf(fs[0], key, header, data);
    if i > 0 {
      ChainOrder(fs, key, header, data, 0, i);
    }
  }

  /** insert_frag rejects a piece it has and collects one it lacks, in whatever order they come. */
  lemma InsertCollects(
    f: Frag, fs: seq<Packet>, key: Key, header: seq<byte>, data: seq<byte>, got: set<nat>, i: nat)
    requires Chain(fs, key, header, data, 0) && |fs| >= 2 && |header| > 0 && i < |fs|
    requires Collected(f, fs, got, header, data)
    ensures i in got ==> Insert(f, fs[i]) == Insertion(f, false)
    ensures i !in got ==>
              var r := Insert(f, fs[i]);
              && r.ok && (r.frag.complete <==> All(|fs|, got + {i}))
              && Collected(r.frag.(complete := false), fs, got + {i}, header, data)
  {
    if i in got {
      SearchFindsPlace(fs, key, header, data, got, i);
    } else if i == |fs| - 1 {
      InsertLast(f, fs, key, header, data, got);
    } else {
      InsertNormal(f, fs, key, header, data, got, i);
    }
  }

  // --------------------------------------------------------------- any packet, well-formed or not

  /** The last packet that does not start higher decides: same offset, or the place behind it. */
  lemma {:induction false} SearchMeans(pkts: seq<Packet>, off: nat)
    ensures Search(pkts, off).Duplicate? ==>
              exists k :: 0 <= k < |pkts| && pkts[k].Off() == off && forall j :: k < j < |pkts| ==> off < pkts[j].Off()
    ensures Search(pkts, off).At? ==>
              var i := Search(pkts, off).i;
              (i > 0 ==> pkts[i - 1].Off() < off) && forall j :: i <= j < |pkts| ==> off < pkts[j].Off()
    decreases |pkts|
  {
    hide Packet.Off;
    if pkts != [] {
      var n := |pkts| - 1;
      if off < pkts[n].Off() {
        SearchMeans(pkts[..n], off);
        if Search(pkts, off).Duplicate? {
          var k :| 0 <= k < n && pkts[..n][k].Off() == off && forall j :: k < j < n ==> off < pkts[..n][j].Off();
          assert pkts[k].Off() == off && forall j :: k < j < n ==> off < pkts[j].Off();
        }
      } else if off == pkts[n].Off() {
        assert pkts[n].Off() == off;
      }
    }
  }

  /** A packet other than the last may be linked in. */
  predicate FitsIn(f: Frag, p: Packet) {
    var place := Search(f.pkts, p.Off());
    && place.At? && (f.hlen == 0 || f.hlen == |p.header|)
    && (place.i > 0 ==>
          f.pkts[place.i - 1].Off() + f.pkts[place.i - 1].Len() <= p.Off() + |p.header|)
  }

  /**
   * insert_frag for every record and every packet: taken if and only if the record is not complete
   * and the packet is the first that ends the datagram, or fits in; the counters and the completeness
   * follow, and a packet that is not taken changes at most the recorded header length.
   */
  lemma InsertExactly(f: Frag, p: Packet)
    ensures var r := Insert(f, p);
            && (r.ok <==> !f.complete && (if p.MoreFragments() then FitsIn(f, p) else !f.last))
            && (!r.ok ==> r.frag == f.(hlen := r.frag.hlen))
            && (r.ok ==>
                  && r.frag.rsize == f.rsize + |p.payload| && |r.frag.pkts| == |f.pkts| + 1
                  && (r.frag.last <==> f.last || !p.MoreFragments())
                  && (r.frag.first <==> f.first || (p.MoreFragments() && p.Off() == 0))
                  && (!p.MoreFragments() ==> r.frag.size == p.Off() + |p.payload|)
                  && (r.frag.complete <==> r.frag.first && r.frag.last && r.frag.rsize == r.frag.size))
  {
    hide Packet.Off, Packet.MoreFragments, Search;
  }

  /** A datagram of more than 65535 octets is not put together. */
  lemma JoinRefusesExactly(f: Frag)
    requires f.pkts != []
    ensures Join(f) == None <==> f.hlen + f.size > 65535
  {
  }

  // ------------------------------------------------------------------- the list of records at work

  /** At most one record per key. */
  predicate Unique(t: seq<Frag>) {
    t == [] || (Find(t[1..], t[0].key) == None && Unique(t[1..]))
  }

  lemma {:induction false} ReplaceFinds(t: seq<Frag>, f: Frag, k: Key)
    requires Find(t, f.key).Some?
    ensures Find(Replace(t, f), k) == if k == f.key then Some(f) else Find(t, k)
    ensures Unique(t) ==> Unique(Replace(t, f))
    decreases |t|
  {
    if t[0].key == f.key {
      assert ([f] + t[1..])[1..] == t[1..];
    } else {
      ReplaceFinds(t[1..], f, k);
      ReplaceFinds(t[1..], f, t[0].key);
      assert ([t[0]] + Replace(t[1..], f))[1..] == Replace(t[1..], f);
    }
  }

  lemma {:induction false} DeleteFinds(t: seq<Frag>, key: Key, k: Key)
    requires Unique(t)
    ensures Find(Delete(t, key), k) == if k == key then None else Find(t, k)
    ensures Unique(Delete(t, key))
    decreases |t|
  {
    if t != [] && t[0].key != key {
      DeleteFinds(t[1..], key, k);
      DeleteFinds(t[1..], key, t[0].key);
      assert ([t[0]] + Delete(t[1..], key))[1..] == Delete(t[1..], key);
    }
  }

  lemma {:induction false} FindKey(t: seq<Frag>, k: Key)
    ensures Find(t, k).Some? ==> Find(t, k).value.key == k
    decreases |t|
  {
    if t != [] && t[0].key != k {
      FindKey(t[1..], k);
    }
  }

  /** The record that insert_frag works on, and how the list looks from any key afterwards. */
  lemma ReassembleFinds(t: seq<Frag>, p: Packet, k: Key)
    requires Unique(t)
    ensures var f := if Find(t, p.key).Some? then Find(t, p.key).value else NewFrag(p);
            var r := Insert(f, p);
            var s := Reassemble(t, p);
            && Unique(s.table)
            && s.out == (if r.ok && r.frag.complete then Join(r.frag) else None)
            && Find(s.table, k) == (if k != p.key then Find(t, k)
                                    else if r.ok && r.frag.complete then None else Some(r.frag))
  {
    FindKey(t, p.key);
    var t1 := if Find(t, p.key).Some? then t else [NewFrag(p)] + t;
    assert ([NewFrag(p)] + t)[1..] == t;
    var r := Insert(Find(t1, p.key).value, p);
    ReplaceFinds(t1, r.frag, k);
    ReplaceFinds(t1, r.frag, p.key);
    DeleteFinds(Replace(t1, r.frag), p.key, k);
  }

  // ---------------------------------------------------------------------------- every arrival order

  /** A fragment of the datagram under study, or any packet of another one. */
  datatype Arrival = Mine(i: nat) | Foreign(p: Packet)

  /** What ip_reass returns for each fragment of ours. */
  function Outputs(t: seq<Frag>, fs: seq<Packet>, arrivals: seq<Arrival>): seq<Option<Packet>>
    requires forall a :: a in arrivals && a.Mine? ==> a.i < |fs|
    decreases |arrivals|
  {
    if arrivals == [] then []
    else match arrivals[0]
      case Foreign(p) => Outputs(Reassemble(t, p).table, fs, arrivals[1..])
      case Mine(i) =>
        var r := Reassemble(t, fs[i]);
        [r.out] + Outputs(r.table, fs, arrivals[1..])
  }

  /** The ideal: nothing until the last missing piece, then the datagram, then start over. */
  function Ideal(n: nat, got: set<nat>, whole: Packet, arrivals: seq<Arrival>): seq<Option<Packet>>
    decreases |arrivals|
  {
    if arrivals == [] then []
    else match arrivals[0]
      case Foreign(_) => Ideal(n, got, whole, arrivals[1..])
      case Mine(i) =>
        if All(n, got + {i}) then [Some(whole)] + Ideal(n, {}, whole, arrivals[1..])
        else [None] + Ideal(n, got + {i}, whole, arrivals[1..])
  }

  /** The list holds the pieces in `got` under our key, and no record at all when there are none. */
  predicate Tracks(
    t: seq<Frag>, fs: seq<Packet>, key: Key, got: set<nat>, header: seq<byte>, data: seq<byte>)
    requires fs != []
  {
    Unique(t) && match Find(t, key)
                 case None => got == {}
                 case Some(f) => Collected(f, fs, got, header, data) && !All(|fs|, got)
  }

  lemma {:induction false} SelectNone(fs: seq<Packet>, hi: nat)
    requires hi <= |fs|
    ensures Select(fs, {}, 0, hi) == []
    decreases hi
  {
    if hi > 0 {
      SelectNone(fs, hi - 1);
    }
  }

  lemma MineArrives(
    t: seq<Frag>, fs: seq<Packet>, key: Key, got: set<nat>, header: seq<byte>, data: seq<byte>, i: nat)
    requires Chain(fs, key, header, data, 0) && |fs| >= 2 && 0 < |header| && |header| + |data| <= MAX_PACKET
    requires Tracks(t, fs, key, got, header, data) && i < |fs|
    ensures var r := Reassemble(t, fs[i]);
            if All(|fs|, got + {i})
            then r.out == Some(Packet(key, header, 0, data)) && Tracks(r.table, fs, key, {}, header, data)
            else r.out == None && Tracks(r.table, fs, key, got + {i}, header, data)
  {
    assert PieceOf(fs[i], key, header, data);
    ReassembleFinds(t, fs[i], key);
    SelectNone(fs, |fs|);
    var f := if Find(t, key).Some? then Find(t, key).value else NewFrag(fs[i]);
    InsertCollects(f, fs, key, header, data, got, i);
    if i in got {
      assert got + {i} == got;
    } else if All(|fs|, got + {i}) {
      var g := Insert(f, fs[i]).frag;
      assert 0 in got + {i};
      JoinGivesDatagram(g, fs, key, header, data, got + {i});
    }
  }

  /**
   * Fragments in any order, with any repetitions, among packets of any other datagrams: ip_reass
   * returns nothing until the last missing piece arrives, and then exactly the datagram.
   */
  lemma {:induction false} ReassemblyIsIdeal(
    t: seq<Frag>, fs: seq<Packet>, key: Key, got: set<nat>, header: seq<byte>, data: seq<byte>,
    arrivals: seq<Arrival>)
    requires Chain(fs, key, header, data, 0) && |fs| >= 2 && 0 < |header| && |header| + |data| <= MAX_PACKET
    requires Tracks(t, fs, key, got, header, data)
    requires forall a :: a in arrivals && a.Mine? ==> a.i < |fs|
    requires forall a :: a in arrivals && a.Foreign? ==> a.p.key != key
    ensures Outputs(t, fs, arrivals) == Ideal(|fs|, got, Packet(key, header, 0, data), arrivals)
    decreases |arrivals|
  {
    if arrivals != [] {
      match arrivals[0]
      case Foreign(p) =>
        assert arrivals[0] in arrivals;
        ReassembleFinds(t, p, key);
        ReassemblyIsIdeal(Reassemble(t, p).table, fs, key, got, header, data, arrivals[1..]);
      case Mine(i) =>
        MineArrives(t, fs, key, got, header, data, i);
        var got' := if All(|fs|, got + {i}) then {} else got + {i};
        ReassemblyIsIdeal(Reassemble(t, fs[i]).table, fs, key, got', header, data, arrivals[1..]);
    }
  }

  /** The round trip: what ip_send_frag makes of a datagram, ip_reass puts together again. */
  lemma FragmentThenReassemble(d: Packet, mtu: nat, t: seq<Frag>, arrivals: seq<Arrival>)
    requires d.fragoff == 0 && 0 < |d.header| && |d.header| + 8 <= mtu < d.Len() <= MAX_PACKET
    requires Unique(t) && Find(t, d.key) == None
    requires var fs := Split(d.key, d.header, d.payload, 0, MaxLen(mtu, |d.header|), Carried(d));
             forall a :: a in arrivals && a.Mine? ==> a.i < |fs|
    requires forall a :: a in arrivals && a.Foreign? ==> a.p.key != d.key
    ensures var fs := Split(d.key, d.header, d.payload, 0, MaxLen(mtu, |d.header|), Carried(d));
            && (forall p :: p in fs ==> p.Len() <= mtu && p.Off() % 8 == 0)
            && Outputs(t, fs, arrivals) == Ideal(|fs|, {}, d, arrivals)
  {
    var m := MaxLen(mtu, |d.header|);
    CarriedIsBit5(d);
    var fs := Split(d.key, d.header, d.payload, 0, m, false);
    assert d.payload[0..] == d.payload;
    SplitPartitions(d.key, d.header, d.payload, 0, m);
    assert |fs| >= 2;
    ReassemblyIsIdeal(t, fs, d.key, {}, d.header, d.payload, arrivals);
  }
}
