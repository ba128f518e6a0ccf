/** The receive path as the source runs it: a socket whose fields, list and ring change in place. */
module TcpReceiver {
  import opened Wrappers
  import opened Bytes
  import opened CircularBuffer
  import opened TcpReceive

  lemma ReadNoRing(r: Rx, n: nat)
    requires r.WindowOk() && r.ring.NoRing?
    ensures ReadBuf(r, n) == (if n == 0 then r else r.(push := false)) && ReadLen(r, n) == 0
  {
  }

  lemma ReadNothing(r: Rx)
    requires r.WindowOk()
    ensures ReadBuf(r, 0) == r && ReadLen(r, 0) == 0
  {
    if r.ring.Ring? {
      assert r.ring.data[0..] == r.ring.data;
    }
  }

  lemma ReadRing(r: Rx, n: nat, out: seq<byte>, rest: seq<byte>)
    requires r.WindowOk() && r.ring.Ring? && out + rest == r.ring.data && |out| == Min(|r.ring.data|, n) && n > 0
    ensures ReadLen(r, n) == |out| && out == r.Pending()[..|out|]
    ensures ReadBuf(r, n) == r.(ring := Ring(rest, r.ring.size), wnd := r.wnd + |out|,
                                push := rest != [] && r.push)
  {
    assert rest == r.ring.data[|out|..];
  }

  lemma NoneBehind(p: Placed)
    ensures AllBehind([], p) == p
  {
  }

  lemma SearchStep(heads: seq<Text>, prevEnd: nat, q: seq<Text>, s: Text)
    requires q != [] && q[0].start <= s.start
    ensures AllBehind(heads, Place(prevEnd, q, s))
            == AllBehind(heads + [q[0]], Place(q[0].End(), q[1..], s))
  {
    var p := Place(q[0].End(), q[1..], s);
    if !p.Wrap? {
      Assoc(heads, [q[0]], p.queue);
    }
  }

  lemma DrainUnfold(r: Rx, got: nat)
    requires r.Writable() && r.queue != [] && r.queue[0].start == r.nxt
    ensures var n, w := WriteLen(r, r.queue[0].data), WriteBuf(r, r.queue[0].data);
            Drain(r, got) == if n == 0 then Some((w, got)) else Drain(w.(queue := r.queue[1..]), got + n)
  {
  }

  class Receiver {
    var rcv_nxt: nat
    var rcv_wnd: nat
    var rcv_buf: CBuf?
    var rcv_reass: seq<Text>
    var push: bool
    var ackNow: bool
    var ackDelay: bool

    ghost function Footprint(): set<object>
      reads this
    {
      if rcv_buf == null then {this} else {this, rcv_buf, rcv_buf.buf}
    }

    ghost predicate Valid()
      reads this, rcv_buf
    {
      rcv_buf != null ==> rcv_buf.Valid() && rcv_wnd == rcv_buf.size - (rcv_buf.head - rcv_buf.tail)
    }

    ghost function Abs(): (r: Rx)
      reads this, rcv_buf, if rcv_buf == null then {} else {rcv_buf.buf}
      requires Valid()
      ensures r.WindowOk()
    {
      Rx(rcv_nxt, rcv_wnd,
         if rcv_buf == null then NoRing else Ring(rcv_buf.Contents(), rcv_buf.size),
         rcv_reass, push, ackNow, ackDelay)
    }

    constructor (nxt: nat)
      ensures Valid() && Footprint() == {this}
      ensures Abs() == Rx(nxt, DEFAULT_WINDOW, NoRing, [], false, false, false)
    {
      rcv_nxt, rcv_wnd, rcv_buf, rcv_reass := nxt, DEFAULT_WINDOW, null, [];
      push, ackNow, ackDelay := false, false, false;
    }

    /** tcp_write_buf once the ring exists. */
    method Store(data: seq<byte>) returns (rlen: nat)
      requires Valid() && rcv_buf != null
      modifies this`rcv_wnd, this`rcv_nxt, rcv_buf, rcv_buf.buf
      ensures Valid() && rcv_buf == old(rcv_buf)
      ensures Abs() == TcpReceive.WriteBuf(old(Abs()), data)
      ensures rlen == WriteLen(old(Abs()), data)
    {
      hide Slots;
      rlen := rcv_buf.Write(data);
      if rlen > 0 {
        rcv_wnd := rcv_wnd - rlen;
        rcv_nxt := rcv_nxt + rlen;
      }
    }

    /** tcp_write_buf. */
    method WriteBuf(data: seq<byte>) returns (rlen: nat)
      requires Valid() && Abs().Writable()
      modifies Footprint()
      ensures Valid() && fresh(Footprint() - old(Footprint()))
      ensures Abs() == TcpReceive.WriteBuf(old(Abs()), data)
      ensures rlen == WriteLen(old(Abs()), data)
    {
      if rcv_buf == null {
        rcv_buf := new CBuf(rcv_wnd);
        assert Abs() == old(Abs()).(ring := Ring([], rcv_wnd));
      }
      rlen := Store(data);
    }

    /** Write the first queued text and, unless nothing fits, unlink it. */
    method TakeFirst() returns (rlen: nat)
      requires Valid() && Abs().Writable() && rcv_reass != []
      modifies Footprint()
      ensures Valid() && fresh(Footprint() - old(Footprint()))
      ensures var r, first := old(Abs()), old(rcv_reass)[0].data;
              && rlen == WriteLen(r, first)
              && Abs() == if rlen == 0 then TcpReceive.WriteBuf(r, first)
                          else TcpReceive.WriteBuf(r, first).(queue := r.queue[1..])
    {
      hide Slots;
      rlen := WriteBuf(rcv_reass[0].data);
      if rlen > 0 {
        rcv_reass := rcv_reass[1..];
      }
    }

    /** The last loop of tcp_segment_reass. */
    method Drain() returns (ok: bool, len: nat)
      requires Valid() && Abs().Writable()
      modifies Footprint()
      ensures Valid() && fresh(Footprint() - old(Footprint()))
      ensures TcpReceive.Drain(old(Abs()), 0) == if ok then Some((Abs(), len)) else None
    {
      hide Slots, TcpReceive.WriteBuf;
      ghost var r := Abs();
      len := 0;
      while rcv_reass != [] && rcv_reass[0].start <= rcv_nxt
        invariant Valid() && fresh(Footprint() - old(Footprint()))
        invariant Abs() == r && r.Writable() && TcpReceive.Drain(old(Abs()), 0) == TcpReceive.Drain(r, len)
        decreases |rcv_reass|
      {
        if rcv_reass[0].start != rcv_nxt {
          return false, len;
        }
        var rlen := TakeFirst();
        DrainUnfold(r, len);
        r := Abs();
        if rlen == 0 {
          return true, len;
        }
        len := len + rlen;
      }
      ok := true;
    }

    /** The search of tcp_segment_reass: the first text above the segment, and where the one before ends. */
    method FindPlace(s: Text, stray: nat) returns (i: nat, prevEnd: nat)
      ensures i <= |rcv_reass| && (i < |rcv_reass| ==> s.start < rcv_reass[i].start)
      ensures Place(stray, rcv_reass, s) == AllBehind(rcv_reass[..i], Place(prevEnd, rcv_reass[i..], s))
    {
      hide Place;
      ghost var q := rcv_reass;
      i, prevEnd := 0, stray;
      assert q[0..] == q && q[..0] == [];
      NoneBehind(Place(stray, q, s));
      while i < |rcv_reass| && rcv_reass[i].start <= s.start
        invariant 0 <= i <= |q|
        invariant Place(stray, q, s) == AllBehind(q[..i], Place(prevEnd, q[i..], s))
      {
        SearchStep(q[..i], prevEnd, q[i..], s);
        assert q[..i] + [q[i]] == q[..i + 1] && q[i..][1..] == q[i + 1..];
        prevEnd := rcv_reass[i].End();
        i := i + 1;
      }
    }

    /** Delete the texts the segment covers, trim its tail and insert it at `i`. */
    method AbsorbAt(segment: Text, i: nat) returns (p: Placed)
      requires i <= |rcv_reass|
      modifies this`rcv_reass
      ensures p == AllBehind(old(rcv_reass)[..i], Absorb(segment, old(rcv_reass)[i..]))
      ensures !p.Wrap? ==> rcv_reass == p.queue
    {
      ghost var heads, tail := rcv_reass[..i], rcv_reass[i..];
      var t := segment;
      while i < |rcv_reass| && rcv_reass[i].End() <= t.End()
        invariant i <= |rcv_reass| && rcv_reass[..i] == heads
        invariant Absorb(t, rcv_reass[i..]) == Absorb(t, tail)
        decreases |rcv_reass|
      {
        ghost var rest := rcv_reass[i..];
        rcv_reass := rcv_reass[..i] + rcv_reass[i + 1..];
        assert rcv_reass[i..] == rest[1..];
      }
      assert rcv_reass == heads + rcv_reass[i..];
      if i < |rcv_reass| && t.End() > rcv_reass[i].start {
        if rcv_reass[i].start < t.start {
          return Wrap;
        }
        if rcv_reass[i].start == t.start {
          return Skip(rcv_reass, t.start);
        }
        t := Text(t.start, t.data[..rcv_reass[i].start - t.start]);
      }
      Assoc(heads, [t], rcv_reass[i..]);
      rcv_reass := rcv_reass[..i] + [t] + rcv_reass[i..];
      p := Put(rcv_reass, t.start);
    }

    /** tcp_segment_reass up to the insertion. */
    method PlaceSegment(s: Text, stray: nat) returns (p: Placed)
      modifies this`rcv_reass
      ensures p == Place(stray, old(rcv_reass), s)
      ensures !p.Wrap? ==> rcv_reass == p.queue
    {
      var i, prevEnd := FindPlace(s, stray);
      var t := s;
      if i < |rcv_reass| {
        match TrimHead(s, prevEnd) {
          case None =>
            assert rcv_reass == rcv_reass[..i] + rcv_reass[i..];
            return Skip(rcv_reass, s.start);
          case Some(trimmed) => t := trimmed;
        }
      }
      p := AbsorbAt(t, i);
    }

    /** tcp_segment_reass. */
    method SegmentReass(s: Text, psh: bool, stray: nat) returns (ok: bool, start: nat)
      requires Valid() && Abs().Writable()
      modifies Footprint()
      ensures Valid() && fresh(Footprint() - old(Footprint()))
      ensures Reass(old(Abs()), s, psh, stray) == if ok then Fine(Abs(), start) else Abort
    {
      hide Slots, Place, TcpReceive.Drain;
      var p := PlaceSegment(s, stray);
      if p.Wrap? {
        return false, 0;
      }
      start := p.start;
      ok := true;
      if p.Put? {
        var len: nat;
        ok, len := Drain();
        if ok && len > 0 && psh {
          push := true;
        }
      }
    }

    /** tcp_recv_text. */
    method RecvText(s: Text, psh: bool, stray: nat) returns (ok: bool, start: nat)
      requires Valid()
      modifies Footprint()
      ensures Valid() && fresh(Footprint() - old(Footprint()))
      ensures TcpReceive.RecvText(old(Abs()), s, psh, stray) == if ok then Fine(Abs(), start) else Abort
    {
      hide Slots, Reass;
      ok, start := true, s.start;
      if rcv_wnd == 0 {
        return;
      }
      match TrimHead(s, rcv_nxt)
      case None =>
      case Some(t) =>
        start := t.start;
        if rcv_nxt == t.start && rcv_reass == [] {
          var rlen := WriteBuf(t.data);
          if rlen > 0 && psh {
            push := true;
          }
          ackDelay := true;
        } else {
          ok, start := SegmentReass(t, psh, stray);
          if ok {
            ackNow := true;
          }
        }
    }

    /** One turn of the loop in tcp_recv_buf. */
    method RecvBuf(n: nat) returns (out: seq<byte>)
      requires Valid()
      modifies Footprint()
      ensures Valid() && Footprint() == old(Footprint())
      ensures Abs() == ReadBuf(old(Abs()), n)
      ensures out == old(Abs()).Pending()[..ReadLen(old(Abs()), n)]
    {
      hide Slots, ReadBuf, ReadLen;
      ghost var r := Abs();
      out := [];
      if n == 0 {
        ReadNothing(r);
        return;
      }
      if rcv_buf == null {
        ReadNoRing(r, n);
        push := false;
      } else {
        out := rcv_buf.Read(n);
        ReadRing(r, n, out, rcv_buf.Contents());
        rcv_wnd := rcv_wnd + |out|;
        if rcv_buf.Used() == 0 {
          push := false;
        }
      }
    }
  }
}
