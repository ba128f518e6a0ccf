/**
 * IP fragmentation and reassembly of tapip/ip/ip_frag.c (section 3.2 of RFC 791). The fields of a
 * packet are numbers in host order; ip_reass gets them so, ip_send_frag reads them in network order
 * on a little-endian host, which is written out where it matters.
 */
module IpFragment {
  import opened Wrappers
  import opened Bytes

  const MF := 0x2000
  const MAX_PACKET := 65535

  /** Identification, source, destination, protocol. */
  datatype Key = Key(id: nat, src: nat, dst: nat, pro: nat)

  datatype Packet = Packet(key: Key, header: seq<byte>, fragoff: nat, payload: seq<byte>) {
    function Off(): nat {
      fragoff % 0x2000 * 8
    }

    predicate MoreFragments() {
      fragoff / 0x2000 % 2 == 1
    }

    /** ip_len. */
    function Len(): nat {
      |header| + |payload|
    }

    /** The octets from `h` on, where a header of length `h` would end. */
    function From(h: nat): seq<byte> {
      if h <= Len() then (header + payload)[h..] else []
    }
  }

  // ---------------------------------------------------------------------------------- splitting

  /** The largest multiple of 8 that fits behind the header. */
  function MaxLen(mtu: nat, hlen: nat): (m: nat)
    requires hlen + 8 <= mtu
    ensures 8 <= m && m % 8 == 0 && hlen + m <= mtu < hlen + m + 8
  {
    (mtu - hlen) / 8 * 8
  }

  /** ip_frag: a copy of the header, `data` behind it, offset and flag written. */
  function Piece(key: Key, header: seq<byte>, data: seq<byte>, off: nat, more: bool): Packet {
    Packet(key, header, (if more then MF else 0) + off / 8, data)
  }

  /** A 16-bit field in network order as a little-endian host reads it. */
  function Swap(x: nat): nat {
    x % 256 * 256 + x / 256 % 256
  }

  /** The bit that ip_send_frag carries over: the host constant IP_FRAG_MF on the field in network order. */
  predicate Carried(p: Packet) {
    Swap(p.fragoff) / MF % 2 == 1
  }

  /** ip_send_frag from offset `off` on; `more` is the bit carried over to the last piece. */
  function Split(key: Key, header: seq<byte>, data: seq<byte>, off: nat, mlen: nat, more: bool): seq<Packet>
    requires mlen >= 8
    decreases |data|
  {
    if |data| > mlen then
      [Piece(key, header, data[..mlen], off, true)] + Split(key, header, data[mlen..], off + mlen, mlen, more)
    else if data != [] then [Piece(key, header, data, off, more)]
    else []
  }

  lemma SplitStep(key: Key, header: seq<byte>, data: seq<byte>, off: nat, mlen: nat, more: bool)
    requires mlen >= 8
    ensures Split(key, header, data, off, mlen, more)
            == if |data| > mlen then
                 [Piece(key, header, data[..mlen], off, true)] + Split(key, header, data[mlen..], off + mlen, mlen, more)
               else if data != [] then [Piece(key, header, data, off, more)]
               else []
  {
  }

  /** ip_send_frag. */
  method SendFrag(p: Packet, mtu: nat) returns (fs: seq<Packet>)
    requires |p.header| + 8 <= mtu
    ensures fs == Split(p.key, p.header, p.payload, 0, MaxLen(mtu, |p.header|), Carried(p))
  {
    hide Split, Piece, Carried, MaxLen;
    var more := Carried(p);
    var dlen, off := |p.payload|, 0;
    assert p.payload[0..] == p.payload;
    var mlen := MaxLen(mtu, |p.header|);
    fs := [];
    while dlen > mlen
      invariant 0 <= dlen && 0 <= off && off + dlen == |p.payload|
      invariant fs + Split(p.key, p.header, p.payload[off..], off, mlen, more)
                == Split(p.key, p.header, p.payload, 0, mlen, more)
    {
      ghost var rest := p.payload[off..];
      var f := Piece(p.key, p.header, p.payload[off..off + mlen], off, true);
      SplitStep(p.key, p.header, rest, off, mlen, more);
      assert rest[..mlen] == p.payload[off..off + mlen] && rest[mlen..] == p.payload[off + mlen..];
      Assoc(fs, [f], Split(p.key, p.header, rest[mlen..], off + mlen, mlen, more));
      fs := fs + [f];
      dlen := dlen - mlen;
      off := off + mlen;
    }
    SplitStep(p.key, p.header, p.payload[off..], off, mlen, more);
    if dlen > 0 {
      fs := fs + [Piece(p.key, p.header, p.payload[off..], off, more)];
    }
  }

  // --------------------------------------------------------------------------------- collecting

  /** struct fragment. */
  datatype Frag = Frag(
    key: Key, hlen: nat, size: nat, rsize: nat, first: bool, last: bool, complete: bool,
    pkts: seq<Packet>)
  {
    /** full_frag. */
    predicate Full() {
      first && last && rsize == size
    }

    /** frag_out: link the packet in at `i`, count it, note completeness. */
    function Link(i: nat, p: Packet): Frag
      requires i <= |pkts|
    {
      var f := this.(pkts := pkts[..i] + [p] + pkts[i..], rsize := rsize + |p.payload|);
      if f.Full() then f.(complete := true) else f
    }
  }

  function NewFrag(p: Packet): Frag {
    Frag(p.key, 0, 0, 0, false, false, false, [])
  }

  datatype Place = Duplicate | At(i: nat)

  /** The backward search: behind the last packet with a smaller offset. */
  function Search(pkts: seq<Packet>, off: nat): (r: Place)
    ensures r.At? ==> r.i <= |pkts|
    ensures r.At? && r.i > 0 ==> pkts[r.i - 1].Off() < off
  {
    if pkts == [] then At(0)
    else
      var f := pkts[|pkts| - 1];
      if off == f.Off() then Duplicate
      else if off > f.Off() then At(|pkts|)
      else Search(pkts[..|pkts| - 1], off)
  }

  datatype Insertion = Insertion(frag: Frag, ok: bool)

  /** insert_frag. */
  function Insert(f: Frag, p: Packet): (r: Insertion)
    ensures r.ok ==> r.frag.pkts != []
    ensures r.frag.key == f.key
  {
    if f.complete then Insertion(f, false)
    else if !p.MoreFragments() then
      if f.last then Insertion(f, false)
      else Insertion(f.(last := true, size := p.Off() + |p.payload|).Link(|f.pkts|, p), true)
    else
      match Search(f.pkts, p.Off())
      case Duplicate => Insertion(f, false)
      case At(i) =>
        if f.hlen != 0 && f.hlen != |p.header| then Insertion(f, false)
        else
          var g := f.(hlen := |p.header|);
          if i > 0 && g.pkts[i - 1].Off() + g.pkts[i - 1].Len() - g.hlen > p.Off() then Insertion(g, false)
          else Insertion(g.(first := g.first || p.Off() == 0).Link(i, p), true)
  }

  /** The payloads behind a header of length `h`, one after the other. */
  function Joined(pkts: seq<Packet>, h: nat): seq<byte> {
    if pkts == [] then [] else Joined(pkts[..|pkts| - 1], h) + pkts[|pkts| - 1].From(h)
  }

  /** reass_frag: nothing when the whole would exceed the largest packet. */
  function Join(f: Frag): Option<Packet>
    requires f.pkts != []
  {
    if f.hlen + f.size > MAX_PACKET then None
    else
      var p := f.pkts[0];
      var header := if f.hlen <= p.Len() then (p.header + p.payload)[..f.hlen] else [];
      Some(Packet(p.key, header, 0, Joined(f.pkts, f.hlen)))
  }

  // -------------------------------------------------------------------- the list of datagrams

  /** lookup_frag. */
  function Find(t: seq<Frag>, k: Key): Option<Frag> {
    if t == [] then None else if t[0].key == k then Some(t[0]) else Find(t[1..], k)
  }

  /** The first record with the key of `f` replaced by `f`. */
  function Replace(t: seq<Frag>, f: Frag): seq<Frag> {
    if t == [] then [] else if t[0].key == f.key then [f] + t[1..] else [t[0]] + Replace(t[1..], f)
  }

  /** delete_frag. */
  function Delete(t: seq<Frag>, k: Key): seq<Frag> {
    if t == [] then [] else if t[0].key == k then t[1..] else [t[0]] + Delete(t[1..], k)
  }

  datatype Received = Received(table: seq<Frag>, out: Option<Packet>)

  /** ip_reass. */
  function Reassemble(t: seq<Frag>, p: Packet): Received {
    var t1 := if Find(t, p.key).Some? then t else [NewFrag(p)] + t;
    var r := Insert(Find(t1, p.key).value, p);
    var t2 := Replace(t1, r.frag);
    if r.ok && r.frag.complete then Received(Delete(t2, p.key), Join(r.frag))
    else Received(t2, None)
  }
}
