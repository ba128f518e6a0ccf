/**
 * One TCP connection on values: the segment-arrives procedure of tapip/tcp/tcp_state.c (section
 * 3.9 of RFC 793), the user calls of tapip/tcp/tcp_sock.c and the expiry of TIME-WAIT.
 */
module TcpConnection {
  import opened Bytes
  import opened TcpReceive

  datatype State =
    | CLOSED | LISTEN | SYN_RECV | SYN_SENT | ESTABLISHED | CLOSE_WAIT
    | LAST_ACK | FIN_WAIT1 | FIN_WAIT2 | CLOSING | TIME_WAIT

  /** struct tcp_segment and the control bits of its header. */
  datatype Segment = Segment(
    text: Text, ackNo: nat, window: nat,
    fin: bool, syn: bool, rst: bool, psh: bool, ack: bool)
  {
    function Len(): nat {
      |text.data| + (if syn then 1 else 0) + (if fin then 1 else 0)
    }

    function LastSeq(): nat {
      if Len() > 0 then text.start + Len() - 1 else text.start
    }

    predicate Wellformed() {
      window < 0x1_0000
    }
  }

  /** The transmission control block. */
  datatype Tcb = Tcb(
    state: State, iss: nat, una: nat, nxt: nat, wnd: nat, wl1: nat, wl2: nat, irs: nat, rx: Rx)

  /** What a handler leaves; `fin` says that it processed a FIN of the peer. */
  datatype Reaction = Done(tcb: Tcb, fin: bool) | Aborted

  // ----------------------------------------------------------------------------- segment arrives

  /** seq_check on rcv_nxt and rcv_wnd. */
  predicate InReach(rcvNxt: nat, rcvWnd: nat, s: Segment) {
    s.text.start < rcvNxt + (if rcvWnd > 0 then rcvWnd else 1) && rcvNxt <= s.LastSeq()
  }

  predicate SeqCheck(t: Tcb, s: Segment) {
    InReach(t.rx.nxt, t.rx.wnd, s)
  }

  /** __tcp_update_window. */
  function SetWindow(t: Tcb, s: Segment): Tcb {
    t.(wnd := s.window, wl1 := s.text.start, wl2 := s.ackNo)
  }

  /** tcp_update_window. */
  function UpdateWindow(t: Tcb, s: Segment): Tcb {
    if t.una <= s.ackNo <= t.nxt
       && (t.wl1 < s.text.start || (t.wl1 == s.text.start && t.wl2 <= s.ackNo))
    then SetWindow(t, s) else t
  }

  /** tcp_synsent. A SYN without ACK is a simultaneous open. */
  function SynSent(t: Tcb, s: Segment): Tcb {
    if s.ack && (s.ackNo <= t.iss || s.ackNo > t.nxt) then t
    else if s.rst then (if s.ack then t.(state := CLOSED) else t)
    else if !s.syn then t
    else
      var u := t.(irs := s.text.start, rx := t.rx.(nxt := s.text.start + 1),
                  una := if s.ack then s.ackNo else t.una);
      if u.una > u.iss then SetWindow(u.(state := ESTABLISHED), s) else u.(state := SYN_RECV)
  }

  /** The ACK field: `go` says that processing continues with the text. */
  datatype Acked = Acked(tcb: Tcb, go: bool)

  /** Fifth step. `accepts` is the answer of tcp_synrecv_ack: parent listening, backlog not full. */
  function AckStep(t: Tcb, s: Segment, accepts: bool): Acked {
    match t.state
    case SYN_RECV =>
      if t.una <= s.ackNo <= t.nxt && accepts
      then Acked(SetWindow(t.(una := s.ackNo), s).(state := ESTABLISHED), true)
      else Acked(t, false)
    case ESTABLISHED | CLOSE_WAIT | LAST_ACK | FIN_WAIT1 | CLOSING =>
      if t.una < s.ackNo <= t.nxt then
        var u := t.(una := s.ackNo);
        match t.state
        case FIN_WAIT1 => Acked(UpdateWindow(u.(state := FIN_WAIT2), s), true)
        case CLOSING => Acked(u.(state := TIME_WAIT), false)
        case LAST_ACK => Acked(u.(state := CLOSED), false)
        case _ => Acked(UpdateWindow(u, s), true)
      else if s.ackNo > t.nxt then Acked(t, false)
      else Acked(UpdateWindow(t, s), true)
    case _ => Acked(t, true)
  }

  predicate TakesText(st: State) {
    st == ESTABLISHED || st == FIN_WAIT1 || st == FIN_WAIT2
  }

  /**
   * Seventh step. The number read through the list head is snd_wnd + snd_up, the two fields that
   * follow it on a 64-bit machine; snd_up is never written and stays 0.
   */
  function TextStep(t: Tcb, s: Segment): Outcome
    requires t.rx.WindowOk()
  {
    if TakesText(t.state) && (s.psh || |s.text.data| > 0) then RecvText(t.rx, s.text, s.psh, t.wnd)
    else Fine(t.rx, s.text.start)
  }

  function AfterFin(st: State): State {
    match st
    case SYN_RECV => CLOSE_WAIT
    case ESTABLISHED => CLOSE_WAIT
    case FIN_WAIT1 => CLOSING
    case FIN_WAIT2 => TIME_WAIT
    case _ => st
  }

  /** Eighth step: rcv_nxt becomes one past the sequence number, whatever the text length was. */
  function FinStep(t: Tcb, start: nat): Tcb {
    t.(state := AfterFin(t.state),
       rx := t.rx.(nxt := start + 1, ackNow := true, push := t.rx.push || t.state == ESTABLISHED || t.state == SYN_RECV))
  }

  /** Seventh and eighth step. */
  function TextAndFin(t: Tcb, s: Segment): Reaction
    requires t.rx.WindowOk()
  {
    match TextStep(t, s)
    case Abort => Aborted
    case Fine(rx, start) =>
      var u := t.(rx := rx);
      if s.fin then Done(FinStep(u, start), true) else Done(u, false)
  }

  /** Fourth step on: a SYN resets the connection, but processing goes on. */
  function Acceptable(t: Tcb, s: Segment, accepts: bool): Reaction
    requires t.rx.WindowOk()
  {
    var t1 := if s.syn then t.(state := CLOSED) else t;
    if !s.ack then Done(t1, false)
    else
      var a := AckStep(t1, s, accepts);
      if a.go then TextAndFin(a.tcb, s) else Done(a.tcb, false)
  }

  /** tcp_process for a connection that is not listening. */
  function SegmentArrives(t: Tcb, s: Segment, accepts: bool): Reaction
    requires t.rx.WindowOk()
  {
    if t.state == CLOSED || t.state == LISTEN then Done(t, false)
    else if t.state == SYN_SENT then Done(SynSent(t, s), false)
    else if !SeqCheck(t, s) then Done(if s.rst then t else t.(rx := t.rx.(ackNow := true)), false)
    else if s.rst then Done(t.(state := CLOSED), false)
    else Acceptable(t, s, accepts)
  }

  // ---------------------------------------------------------------------------------- user calls

  /** tcp_connect up to the wait. */
  function Connect(t: Tcb, iss: nat): (u: Tcb)
    ensures t.state == CLOSED ==> u.state == SYN_SENT && u.iss == u.una == iss && u.rx == t.rx
    ensures t.state != CLOSED ==> u == t
  {
    if t.state == CLOSED then t.(state := SYN_SENT, iss := iss, una := iss, nxt := iss + 1) else t
  }

  /** tcp_connect after the wait; `err` when the sleep was interrupted. */
  function ConnectReturn(t: Tcb, err: bool): (u: Tcb)
    ensures u.state == ESTABLISHED <==> t.state == ESTABLISHED && !err
    ensures u.state == ESTABLISHED || u.state == CLOSED
  {
    if err || t.state != ESTABLISHED then t.(state := CLOSED) else t
  }

  /** The child that tcp_listen makes for a SYN. */
  function Child(s: Segment, iss: nat): Tcb {
    Tcb(SYN_RECV, iss, iss, iss + 1, 0, 0, 0, s.text.start,
        Rx(s.text.start + 1, DEFAULT_WINDOW, NoRing, [], false, false, false))
  }

  /** tcp_close sends a FIN from exactly these states. */
  predicate ClosesWithFin(st: State) {
    st == ESTABLISHED || st == CLOSE_WAIT
  }

  /**
   * tcp_close: the ring and the reassembly queue are freed in every state, but rcv_wnd is not
   * restored: the next ring is only as large as the free part of the old one.
   */
  function Close(t: Tcb): (u: Tcb)
    ensures u.rx.Pending() == [] && u.rx.queue == [] && u.rx.nxt == t.rx.nxt
    ensures u.state != t.state <==> t.state == LISTEN || ClosesWithFin(t.state)
    ensures t.state == LISTEN ==> u.state == CLOSED
    ensures t.rx.WindowOk() && t.rx.ring.Ring? ==> u.rx.wnd == t.rx.ring.size - |t.rx.Pending()|
  {
    var st := match t.state
              case ESTABLISHED => FIN_WAIT1
              case CLOSE_WAIT => LAST_ACK
              case LISTEN => CLOSED
              case other => other;
    t.(state := st, nxt := t.nxt + (if ClosesWithFin(t.state) then 1 else 0),
       rx := t.rx.(ring := NoRing, queue := []))
  }

  /** How many octets tcp_send_buf sends. */
  function SendLen(t: Tcb, n: nat): nat {
    if t.state == ESTABLISHED || t.state == CLOSE_WAIT then Min(n, t.wnd) else 0
  }

  function Send(t: Tcb, n: nat): (u: Tcb)
    ensures t.nxt <= u.nxt <= t.nxt + n && u.nxt + u.wnd == t.nxt + t.wnd && u.state == t.state && u.una == t.una
    ensures t.state == ESTABLISHED || t.state == CLOSE_WAIT ==> u.wnd == 0 || u.nxt == t.nxt + n
    ensures t.state != ESTABLISHED && t.state != CLOSE_WAIT ==> u == t
  {
    t.(nxt := t.nxt + SendLen(t, n), wnd := t.wnd - SendLen(t, n))
  }

  /** tcp_recv_buf may read. */
  predicate Reads(t: Tcb) {
    TakesText(t.state) || (t.state == CLOSE_WAIT && t.rx.Pending() != [])
  }

  /** Expiry of the TIME-WAIT timer. */
  function TimeWaitOver(t: Tcb): (u: Tcb)
    ensures u.state != TIME_WAIT && (u.state != t.state ==> t.state == TIME_WAIT && u.state == CLOSED)
  {
    if t.state == TIME_WAIT then t.(state := CLOSED) else t
  }
}
