/** Reassembly as the source runs it: loops over linked lists and a list of records in place. */
module IpReassembler {
  import opened Wrappers
  import opened Bytes
  import opened IpFragment

  /** The backward walk of insert_frag; `dup` when a packet with the same offset is met. */
  method SearchBackward(pkts: seq<Packet>, off: nat) returns (dup: bool, i: nat)
    ensures Search(pkts, off) == if dup then Duplicate else At(i)
  {
    i, dup := |pkts|, false;
    assert pkts[..i] == pkts;
    while i > 0
      invariant i <= |pkts|
      invariant Search(pkts, off) == Search(pkts[..i], off)
    {
      var f := pkts[i - 1];
      assert pkts[..i][..i - 1] == pkts[..i - 1];
      if off == f.Off() {
        return true, i;
      }
      if off > f.Off() {
        return false, i;
      }
      i := i - 1;
    }
  }

  /** insert_frag. */
  method InsertFrag(f: Frag, p: Packet) returns (g: Frag, ok: bool)
    ensures Insert(f, p) == Insertion(g, ok)
  {
    g, ok := f, false;
    if f.complete {
      return;
    }
    var pos: nat;
    if !p.MoreFragments() {
      if f.last {
        return;
      }
      g := g.(last := true, size := p.Off() + p.Len() - |p.header|);
      pos := |g.pkts|;
    } else {
      var dup;
      dup, pos := SearchBackward(f.pkts, p.Off());
      if dup {
        return;
      }
      if f.hlen != 0 && f.hlen != |p.header| {
        return;
      }
      g := g.(hlen := |p.header|);
      if pos > 0 && g.pkts[pos - 1].Off() + g.pkts[pos - 1].Len() - |p.header| > p.Off() {
        return;
      }
      if p.Off() == 0 {
        g := g.(first := true);
      }
    }
    g, ok := g.Link(pos, p), true;
  }

  lemma JoinedNone(pkts: seq<Packet>, h: nat)
    requires pkts == []
    ensures Joined(pkts, h) == []
  {
  }

  lemma JoinedNext(pkts: seq<Packet>, h: nat, i: nat)
    requires i < |pkts|
    ensures Joined(pkts[..i + 1], h) == Joined(pkts[..i], h) + pkts[i].From(h)
  {
    assert pkts[..i + 1][..i] == pkts[..i];
  }

  /** reass_frag: one copy of the header, then every payload in list order. */
  method JoinFrag(f: Frag) returns (r: Option<Packet>)
    requires f.pkts != []
    ensures r == Join(f)
  {
    if f.hlen + f.size > MAX_PACKET {
      return None;
    }
    var p := f.pkts[0];
    var header := if f.hlen <= p.Len() then (p.header + p.payload)[..f.hlen] else [];
    hide Joined;
    var data, i := [], 0;
    JoinedNone(f.pkts[..i], f.hlen);
    while i < |f.pkts|
      invariant 0 <= i <= |f.pkts|
      invariant data == Joined(f.pkts[..i], f.hlen)
    {
      JoinedNext(f.pkts, f.hlen, i);
      data := data + f.pkts[i].From(f.hlen);
      i := i + 1;
    }
    assert f.pkts[..i] == f.pkts;
    return Some(Packet(p.key, header, 0, data));
  }

  /** The list functions in terms of the index of the first record with the key. */
  lemma {:induction false} AtIndex(t: seq<Frag>, k: Key, f: Frag, i: nat)
    requires i < |t| && t[i].key == k && f.key == k && forall j :: 0 <= j < i ==> t[j].key != k
    ensures Find(t, k) == Some(t[i])
    ensures Replace(t, f) == t[..i] + [f] + t[i + 1..]
    ensures Delete(t, k) == t[..i] + t[i + 1..]
    decreases |t|
  {
    if i == 0 {
      assert t[..0] == [] && [] + [f] + t[1..] == [f] + t[1..] && [] + t[1..] == t[1..];
    } else {
      var rest := t[1..];
      AtIndex(rest, k, f, i - 1);
      var a, b := rest[..i - 1], rest[i..];
      assert t[..i] == [t[0]] + a && t[i + 1..] == b;
      assert Replace(t, f) == [t[0]] + (a + [f] + b) && Delete(t, k) == [t[0]] + (a + b);
      Assoc([t[0]], a + [f], b);
      Assoc([t[0]], a, [f]);
      Assoc([t[0]], a, b);
    }
  }

  lemma {:induction false} NoIndex(t: seq<Frag>, k: Key)
    requires forall j :: 0 <= j < |t| ==> t[j].key != k
    ensures Find(t, k) == None
    decreases |t|
  {
    if t != [] {
      NoIndex(t[1..], k);
    }
  }

  class Reassembler {
    var frag_head: seq<Frag>

    constructor ()
      ensures frag_head == []
    {
      frag_head := [];
    }

    /** lookup_frag: index of the first record with the key, or the length of the list. */
    method Lookup(k: Key) returns (i: nat)
      ensures i <= |frag_head| && (forall j :: 0 <= j < i ==> frag_head[j].key != k)
      ensures i < |frag_head| ==> frag_head[i].key == k
    {
      i := 0;
      while i < |frag_head| && frag_head[i].key != k
        invariant i <= |frag_head| && forall j :: 0 <= j < i ==> frag_head[j].key != k
      {
        i := i + 1;
      }
    }

    /** ip_reass. */
    method Receive(p: Packet) returns (out: Option<Packet>)
      modifies this
      ensures Reassemble(old(frag_head), p) == Received(frag_head, out)
    {
      ghost var t := frag_head;
      var i := Lookup(p.key);
      if i == |frag_head| {
        NoIndex(frag_head, p.key);
        frag_head := [NewFrag(p)] + frag_head;
        i := 0;
      } else {
        AtIndex(t, p.key, frag_head[i], i);
      }
      ghost var t1 := frag_head;
      AtIndex(t1, p.key, frag_head[i], i);
      var g, ok := InsertFrag(frag_head[i], p);
      AtIndex(t1, p.key, g, i);
      frag_head := frag_head[..i] + [g] + frag_head[i + 1..];
      out := None;
      if ok && g.complete {
        out := JoinFrag(g);
        AtIndex(frag_head, p.key, g, i);
        frag_head := frag_head[..i] + frag_head[i + 1..];
      }
    }
  }
}
