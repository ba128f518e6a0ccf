/** The connection as the source runs it: a socket object updated in place. */
module TcpSocket {
  import opened Wrappers
  import opened Bytes
  import opened TcpReceive
  import opened CircularBuffer
  import opened TcpReceiver
  import opened TcpConnection
  import opened TcpSender
  import opened TcpRuns

  class TcpSock {
    var state: State
    var iss: nat
    var snd_una: nat
    var snd_nxt: nat
    var snd_wnd: nat
    var snd_wl1: nat
    var snd_wl2: nat
    var irs: nat
    const rx: Receiver

    ghost function Footprint(): set<object>
      reads this, rx
    {
      {this} + rx.Footprint()
    }

    ghost predicate Valid()
      reads this, rx, rx.rcv_buf
    {
      rx.Valid()
    }

    ghost function Abs(): (t: Tcb)
      reads this, rx, rx.rcv_buf, if rx.rcv_buf == null then {} else {rx.rcv_buf.buf}
      requires Valid()
      ensures t.rx.WindowOk()
    {
      Tcb(state, iss, snd_una, snd_nxt, snd_wnd, snd_wl1, snd_wl2, irs, rx.Abs())
    }

    /** tcp_listen: the child socket made for a SYN. */
    constructor Child(s: Segment, newIss: nat)
      ensures Valid() && fresh(rx) && Abs() == TcpConnection.Child(s, newIss)
    {
      state, iss, irs := SYN_RECV, newIss, s.text.start;
      snd_una, snd_nxt := newIss, newIss + 1;
      snd_wnd, snd_wl1, snd_wl2 := 0, 0, 0;
      rx := new Receiver(s.text.start + 1);
    }

    method SetWindow(s: Segment)
      requires Valid()
      modifies this
      ensures Valid() && Abs() == TcpConnection.SetWindow(old(Abs()), s)
    {
      hide Slots;
      snd_wnd, snd_wl1, snd_wl2 := s.window, s.text.start, s.ackNo;
    }

    method UpdateWindow(s: Segment)
      requires Valid()
      modifies this
      ensures Valid() && Abs() == TcpConnection.UpdateWindow(old(Abs()), s)
    {
      hide Slots;
      if snd_una <= s.ackNo && s.ackNo <= snd_nxt
         && (snd_wl1 < s.text.start || (snd_wl1 == s.text.start && snd_wl2 <= s.ackNo)) {
        SetWindow(s);
      }
    }

    /** tcp_synsent. */
    method SynSent(s: Segment)
      requires Valid()
      modifies this, rx`rcv_nxt
      ensures Valid() && Abs() == TcpConnection.SynSent(old(Abs()), s)
    {
      hide Slots;
      if s.ack && (s.ackNo <= iss || s.ackNo > snd_nxt) {
        return;
      }
      if s.rst {
        if s.ack {
          state := CLOSED;
        }
        return;
      }
      if s.syn {
        irs := s.text.start;
        rx.rcv_nxt := s.text.start + 1;
        if s.ack {
          snd_una := s.ackNo;
        }
        if snd_una > iss {
          state := ESTABLISHED;
          SetWindow(s);
        } else {
          state := SYN_RECV;
        }
      }
    }

    /** The ACK field in SYN_RECV. */
    method CheckSynRecvAck(s: Segment, accepts: bool) returns (go: bool)
      requires Valid() && state == SYN_RECV
      modifies this
      ensures Valid() && AckStep(old(Abs()), s, accepts) == Acked(Abs(), go)
    {
      hide Slots;
      go := snd_una <= s.ackNo && s.ackNo <= snd_nxt && accepts;
      if go {
        snd_una := s.ackNo;
        SetWindow(s);
        state := ESTABLISHED;
      }
    }

    /** The ACK field once synchronized. */
    method CheckSyncAck(s: Segment, ghost accepts: bool) returns (go: bool)
      requires Valid() && state in {ESTABLISHED, CLOSE_WAIT, LAST_ACK, FIN_WAIT1, CLOSING}
      modifies this
      ensures Valid() && AckStep(old(Abs()), s, accepts) == Acked(Abs(), go)
    {
      hide Slots, TcpConnection.UpdateWindow;
      go := true;
      if snd_una < s.ackNo && s.ackNo <= snd_nxt {
        snd_una := s.ackNo;
        if state == FIN_WAIT1 {
          state := FIN_WAIT2;
        } else if state == CLOSING {
          state := TIME_WAIT;
          return false;
        } else if state == LAST_ACK {
          state := CLOSED;
          return false;
        }
      } else if s.ackNo > snd_nxt {
        return false;
      }
      UpdateWindow(s);
    }

    /** Fifth step of tcp_process; false means `goto drop`. */
    method CheckAck(s: Segment, accepts: bool) returns (go: bool)
      requires Valid()
      modifies this
      ensures Valid() && AckStep(old(Abs()), s, accepts) == Acked(Abs(), go)
    {
      hide Slots;
      go := true;
      if state == SYN_RECV {
        go := CheckSynRecvAck(s, accepts);
      } else if state in {ESTABLISHED, CLOSE_WAIT, LAST_ACK, FIN_WAIT1, CLOSING} {
        go := CheckSyncAck(s, accepts);
      }
    }

    /** Seventh step of tcp_process. */
    method CheckText(s: Segment) returns (ok: bool, start: nat)
      requires Valid()
      modifies rx.Footprint()
      ensures Valid() && fresh(Footprint() - old(Footprint()))
      ensures match TextStep(old(Abs()), s)
              case Abort => !ok
              case Fine(r, n) => ok && start == n && Abs() == old(Abs()).(rx := r)
    {
      hide Slots;
      ok, start := true, s.text.start;
      if TakesText(state) && (s.psh || |s.text.data| > 0) {
        ok, start := rx.RecvText(s.text, s.psh, snd_wnd);
      }
    }

    /** Eighth step of tcp_process. */
    method CheckFin(start: nat)
      requires Valid()
      modifies this`state, rx`push, rx`rcv_nxt, rx`ackNow
      ensures Valid() && Abs() == FinStep(old(Abs()), start)
    {
      hide Slots;
      match state {
        case SYN_RECV | ESTABLISHED =>
          state := CLOSE_WAIT;
          rx.push := true;
        case FIN_WAIT1 => state := CLOSING;
        case FIN_WAIT2 => state := TIME_WAIT;
        case _ =>
      }
      rx.rcv_nxt := start + 1;
      rx.ackNow := true;
    }

    /** Seventh and eighth step together. */
    method CheckTextAndFin(s: Segment) returns (ok: bool, fin: bool)
      requires Valid()
      modifies Footprint()
      ensures Valid() && fresh(Footprint() - old(Footprint()))
      ensures TextAndFin(old(Abs()), s) == if ok then Done(Abs(), fin) else Aborted
    {
      hide Slots;
      var start;
      ok, start := CheckText(s);
      fin := s.fin;
      if ok && s.fin {
        CheckFin(start);
      }
    }

    /** From the fourth step of tcp_process on. */
    method ProcessAcceptable(s: Segment, accepts: bool) returns (ok: bool, fin: bool)
      requires Valid()
      modifies Footprint()
      ensures Valid() && fresh(Footprint() - old(Footprint()))
      ensures Acceptable(old(Abs()), s, accepts) == if ok then Done(Abs(), fin) else Aborted
    {
      hide Slots;
      ok, fin := true, false;
      if s.syn {
        state := CLOSED;
      }
      ghost var t1 := Abs();
      if s.ack {
        var go := CheckAck(s, accepts);
        ghost var t2 := Abs();
        assert AckStep(t1, s, accepts) == Acked(t2, go);
        if go {
          ok, fin := CheckTextAndFin(s);
          assert Acceptable(old(Abs()), s, accepts) == TextAndFin(t2, s);
        }
      }
    }

    /** tcp_process. */
    method Process(s: Segment, accepts: bool) returns (ok: bool, fin: bool)
      requires Valid()
      modifies Footprint()
      ensures Valid() && fresh(Footprint() - old(Footprint()))
      ensures SegmentArrives(old(Abs()), s, accepts) == if ok then Done(Abs(), fin) else Aborted
    {
      hide Slots;
      ok, fin := true, false;
      if state == CLOSED || state == LISTEN {
        return;
      }
      if state == SYN_SENT {
        SynSent(s);
        return;
      }
      if !InReach(rx.rcv_nxt, rx.rcv_wnd, s) {
        if !s.rst {
          rx.ackNow := true;
        }
        return;
      }
      if s.rst {
        state := CLOSED;
        return;
      }
      ok, fin := ProcessAcceptable(s, accepts);
    }

    /** tcp_connect up to the wait. */
    method Connect(newIss: nat)
      requires Valid()
      modifies this
      ensures Valid() && Abs() == TcpConnection.Connect(old(Abs()), newIss)
    {
      hide Slots;
      if state == CLOSED {
        state, iss, snd_una, snd_nxt := SYN_SENT, newIss, newIss, newIss + 1;
      }
    }

    /** tcp_close. */
    method Close()
      requires Valid()
      modifies this, rx`rcv_buf, rx`rcv_reass
      ensures Valid() && Abs() == TcpConnection.Close(old(Abs()))
    {
      hide Slots;
      match state {
        case LISTEN => state := CLOSED;
        case ESTABLISHED =>
          state := FIN_WAIT1;
          snd_nxt := snd_nxt + 1;
        case CLOSE_WAIT =>
          state := LAST_ACK;
          snd_nxt := snd_nxt + 1;
        case _ =>
      }
      rx.rcv_buf := null;
      rx.rcv_reass := [];
    }

    /** tcp_connect after the wait. */
    method ConnectReturn(err: bool)
      requires Valid()
      modifies this
      ensures Valid() && Abs() == TcpConnection.ConnectReturn(old(Abs()), err)
    {
      hide Slots;
      if err || state != ESTABLISHED {
        state := CLOSED;
      }
    }

    /** Expiry of the TIME-WAIT timer. */
    method TimeWaitOver()
      requires Valid()
      modifies this
      ensures Valid() && Abs() == TcpConnection.TimeWaitOver(old(Abs()))
    {
      hide Slots;
      if state == TIME_WAIT {
        state := CLOSED;
      }
    }

    /** tcp_recv_buf, one turn; nothing is read in the states that refuse. */
    method RecvBuf(n: nat) returns (out: seq<byte>)
      requires Valid()
      modifies Footprint()
      ensures Valid() && Footprint() == old(Footprint())
      ensures var t := old(Abs());
              if Reads(t) then Abs() == t.(rx := ReadBuf(t.rx, n)) && out == t.rx.Pending()[..ReadLen(t.rx, n)]
              else Abs() == t && out == []
    {
      hide Slots;
      out := [];
      var some := rx.rcv_buf != null && rx.rcv_buf.Used() > 0;
      if TakesText(state) || (state == CLOSE_WAIT && some) {
        out := rx.RecvBuf(n);
      }
    }

    /** tcp_send_buf: the segments handed to the network and the number of octets, or -1. */
    method SendBuf(buf: seq<byte>, mss: nat) returns (ts: seq<Text>, psh: seq<bool>, ret: int)
      requires Valid() && mss >= 1
      modifies this
      ensures Valid() && Abs() == Send(old(Abs()), |buf|)
      ensures var n := SendLen(old(Abs()), |buf|);
              && ts == Cut(old(snd_nxt), buf[..n], mss)
              && ret == if n == 0 then -1 else n
      ensures |psh| == |ts| && forall i :: 0 <= i < |psh| ==> (psh[i] <==> i == |psh| - 1)
    {
      hide Slots;
      ts, psh, ret := [], [], -1;
      if state == ESTABLISHED || state == CLOSE_WAIT {
        ts, psh, snd_nxt, snd_wnd, ret := SendText(snd_nxt, snd_wnd, buf, mss);
      }
    }

    // -------------------------------------------------------------------------- events, one by one

    /** Whatever the user, the peer or the clock does, the object does the step of the connection. */
    method Handle(e: Event, text: seq<byte>, mss: nat, ghost c: Conn) returns (ok: bool, ghost d: Conn)
      requires Valid() && c.tcb == Abs() && mss >= 1 && (e.UserSend? ==> |text| == e.n)
      modifies Footprint()
      ensures Valid() && fresh(Footprint() - old(Footprint()))
      ensures Step(c, e) == (if ok then Some(d) else None) && (ok ==> d.tcb == Abs())
    {
      hide Slots, SegmentArrives;
      ok := true;
      match e {
        case Arrive(s, accepts) =>
          var fin;
          ok, fin := Process(s, accepts);
        case UserConnect(newIss) => Connect(newIss);
        case UserConnectReturn(err) => ConnectReturn(err);
        case UserClose => Close();
        case UserSend(n) => var ts, psh, ret := SendBuf(text, mss);
        case UserRead(n) => var out := RecvBuf(n);
        case TimeWaitTimer => TimeWaitOver();
      }
      d := if Step(c, e).Some? then Step(c, e).value else c;
    }

    /** A whole run. */
    method Drive(es: seq<Event>, texts: seq<seq<byte>>, mss: nat, ghost c: Conn)
      returns (ok: bool, ghost f: Conn)
      requires Valid() && c.tcb == Abs() && mss >= 1 && Inv(c) && AllWellformed(es)
      requires |texts| == |es| && forall i :: 0 <= i < |es| && es[i].UserSend? ==> |texts[i]| == es[i].n
      modifies Footprint()
      ensures Valid() && fresh(Footprint() - old(Footprint()))
      ensures Run(c, es) == (if ok then Some(f) else None) && (ok ==> f.tcb == Abs())
    {
      hide Slots, Step, TcpRuns.Inv;
      f, ok := c, true;
      var i := 0;
      assert es[0..] == es;
      while i < |es|
        invariant 0 <= i <= |es| && ok && Valid() && fresh(Footprint() - old(Footprint()))
        invariant f.tcb == Abs() && Inv(f) && AllWellformed(es[i..]) && Run(c, es) == Run(f, es[i..])
      {
        ghost var g, rest := f, es[i..];
        assert rest[0] == es[i] && rest[1..] == es[i + 1..] && es[i] in rest;
        ok, f := Handle(es[i], texts[i], mss, f);
        RunUnfold(g, rest);
        if !ok {
          return;
        }
        i := i + 1;
      }
    }
  }

  lemma RunUnfold(c: Conn, es: seq<Event>)
    requires Inv(c) && AllWellformed(es) && es != [] && c.tcb.rx.WindowOk()
    ensures Step(c, es[0]).None? ==> Run(c, es).None?
    ensures Step(c, es[0]).Some? ==>
              Inv(Step(c, es[0]).value) && AllWellformed(es[1..]) && Run(c, es) == Run(Step(c, es[0]).value, es[1..])
  {
    if Step(c, es[0]).Some? {
      assert es[0] in es;
      StepKeepsInv(c, es[0]);
    }
  }
}
