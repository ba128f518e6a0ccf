/** What one segment does to a connection, field by field, and what acknowledgments add up to. */
module TcpSegments {
  import opened Wrappers
  import opened Bytes
  import opened TcpReceive
  import opened TcpConnection
  import opened TcpRuns

  // --------------------------------------------------------------------- segments that go no further

  /** A connection that takes segments through the sequence of checks. */
  predicate Checks(st: State) {
    Open(st) && st != SYN_SENT
  }

  /** The segment passes the sequence check and neither resets nor reopens. */
  predicate Regular(t: Tcb, s: Segment) {
    Checks(t.state) && SeqCheck(t, s) && !s.rst && !s.syn
  }

  lemma ClosedNoEffect(t: Tcb, s: Segment, ok: bool)
    requires t.rx.WindowOk() && (t.state == CLOSED || t.state == LISTEN)
    ensures SegmentArrives(t, s, ok) == Done(t, false)
  {
  }

  /** Outside the window a segment only provokes an acknowledgment, and not even that with RST. */
  lemma OutsideOnlyAcks(t: Tcb, s: Segment, ok: bool)
    requires t.rx.WindowOk() && Checks(t.state) && !SeqCheck(t, s)
    ensures SegmentArrives(t, s, ok) == Done(t.(rx := t.rx.(ackNow := t.rx.ackNow || !s.rst)), false)
  {
  }

  /** Inside, RST closes and changes nothing else. */
  lemma ResetCloses(t: Tcb, s: Segment, ok: bool)
    requires t.rx.WindowOk() && Checks(t.state) && SeqCheck(t, s) && s.rst
    ensures SegmentArrives(t, s, ok) == Done(t.(state := CLOSED), false)
  {
  }

  /** SYN closes; nothing of the segment is delivered or acknowledged. */
  lemma SynCloses(t: Tcb, s: Segment, ok: bool)
    requires t.rx.WindowOk() && Checks(t.state) && SeqCheck(t, s) && !s.rst && s.syn
    ensures var r := SegmentArrives(t, s, ok);
            && r.Done? && r.tcb.state == CLOSED && r.tcb.una == t.una && r.tcb.nxt == t.nxt && r.tcb.wnd == t.wnd
            && r.tcb.rx.Pending() == t.rx.Pending() && r.tcb.rx.queue == t.rx.queue
  {
    hide RecvText, InReach;
  }

  /** Without ACK the segment is dropped. */
  lemma NoAckNoEffect(t: Tcb, s: Segment, ok: bool)
    requires t.rx.WindowOk() && Regular(t, s) && !s.ack
    ensures SegmentArrives(t, s, ok) == Done(t, false)
  {
  }

  // ----------------------------------------------------------------------------- the acknowledgment

  predicate AcksData(st: State) {
    st == ESTABLISHED || st == CLOSE_WAIT || st == FIN_WAIT1 || st == CLOSING || st == LAST_ACK
  }

  /** The acknowledgment covers something new that was sent. */
  predicate NewAck(t: Tcb, s: Segment) {
    t.una < s.ackNo <= t.nxt
  }

  /** The acknowledgment number that counts, if any. */
  function AckTaken(t: Tcb, s: Segment, ok: bool): Option<nat> {
    if t.state == SYN_SENT then
      if s.syn && s.ack && !s.rst && t.iss < s.ackNo <= t.nxt then Some(s.ackNo) else None
    else if !Regular(t, s) || !s.ack then None
    else if t.state == SYN_RECV then (if t.una <= s.ackNo <= t.nxt && ok then Some(s.ackNo) else None)
    else if AcksData(t.state) && NewAck(t, s) then Some(s.ackNo)
    else None
  }

  /** In every state: snd_una becomes the acknowledgment number that counts, and changes for no other. */
  lemma UnaExactly(t: Tcb, s: Segment, ok: bool)
    requires t.rx.WindowOk() && SegmentArrives(t, s, ok).Done?
    ensures SegmentArrives(t, s, ok).tcb.una
            == match AckTaken(t, s, ok) case None => t.una case Some(a) => a
  {
    hide RecvText, InReach;
  }

  /** Processing goes on behind the acknowledgment. */
  predicate GoesOn(t: Tcb, s: Segment, ok: bool) {
    && Regular(t, s) && s.ack
    && (t.state == SYN_RECV ==> t.una <= s.ackNo <= t.nxt && ok)
    && (AcksData(t.state) ==> s.ackNo <= t.nxt)
    && (t.state == CLOSING || t.state == LAST_ACK ==> !NewAck(t, s))
  }

  /** An acknowledgment of something never sent, or a third ACK that is refused, has no effect at all. */
  lemma RefusedAckNoEffect(t: Tcb, s: Segment, ok: bool)
    requires t.rx.WindowOk() && Regular(t, s) && s.ack && !GoesOn(t, s, ok)
    requires !((t.state == CLOSING || t.state == LAST_ACK) && NewAck(t, s))
    ensures SegmentArrives(t, s, ok) == Done(t, false)
  {
    hide InReach;
  }

  /** The segment is newer than the one the send window stems from. */
  predicate Newer(t: Tcb, s: Segment) {
    t.wl1 < s.text.start || (t.wl1 == s.text.start && t.wl2 <= s.ackNo)
  }

  /** The segment's window becomes the send window. */
  predicate WindowTaken(t: Tcb, s: Segment, ok: bool) {
    && GoesOn(t, s, ok)
    && (t.state == SYN_RECV || (AcksData(t.state) && t.una <= s.ackNo && Newer(t, s)))
  }

  lemma WindowExactly(t: Tcb, s: Segment, ok: bool)
    requires t.rx.WindowOk() && t.state != SYN_SENT && SegmentArrives(t, s, ok).Done?
    ensures var u := SegmentArrives(t, s, ok).tcb;
            if WindowTaken(t, s, ok) then u.wnd == s.window && u.wl1 == s.text.start && u.wl2 == s.ackNo
            else u.wnd == t.wnd && u.wl1 == t.wl1 && u.wl2 == t.wl2
  {
    hide RecvText, InReach;
  }

  // --------------------------------------------------------------------------------- text and states

  predicate ReadsText(st: State) {
    st == SYN_RECV || st == ESTABLISHED || st == FIN_WAIT1 || st == FIN_WAIT2
  }

  /** The window behind the acknowledgment, which is what the list head shows. */
  function WindowThen(t: Tcb, s: Segment, ok: bool): nat {
    if WindowTaken(t, s, ok) then s.window else t.wnd
  }

  /** The receiver that the text leaves, if there is text for it. */
  function TextTo(t: Tcb, s: Segment, ok: bool): Outcome
    requires t.rx.WindowOk()
  {
    if ReadsText(t.state) && (s.psh || s.text.data != [])
    then RecvText(t.rx, s.text, s.psh, WindowThen(t, s, ok))
    else Fine(t.rx, s.text.start)
  }

  /** In every state that reads, text goes to tcp_recv_text; nothing else changes ring and queue. */
  lemma TextExactly(t: Tcb, s: Segment, ok: bool)
    requires t.rx.WindowOk() && GoesOn(t, s, ok)
    ensures var r := SegmentArrives(t, s, ok);
            match TextTo(t, s, ok)
            case Abort => r == Aborted
            case Fine(rx, start) =>
              && r.Done? && r.fin == s.fin
              && (!s.fin ==> r.tcb.rx == rx)
              && (s.fin ==> r.tcb.rx.ring == rx.ring && r.tcb.rx.queue == rx.queue && r.tcb.rx.ackNow)
              && (s.fin && (t.state == ESTABLISHED || t.state == SYN_RECV) ==> r.tcb.rx.push)
  {
    hide RecvText, InReach, AckStep, WindowThen;
    AckGoesOn(t, s, ok);
  }

  /** What the acknowledgment leaves for text and FIN. */
  lemma AckGoesOn(t: Tcb, s: Segment, ok: bool)
    requires GoesOn(t, s, ok)
    ensures var a := AckStep(t, s, ok);
            && a.go && a.tcb.rx == t.rx && a.tcb.wnd == WindowThen(t, s, ok)
            && (TakesText(a.tcb.state) <==> ReadsText(t.state))
            && (t.state == ESTABLISHED || t.state == SYN_RECV ==> a.tcb.state == ESTABLISHED)
  {
    hide InReach;
  }

  /** Where the peer's FIN and an acknowledgment of something new lead. */
  function Destination(st: State, acked: bool, fin: bool): State {
    match st
    case SYN_RECV => if fin then CLOSE_WAIT else ESTABLISHED
    case ESTABLISHED => if fin then CLOSE_WAIT else ESTABLISHED
    case FIN_WAIT1 =>
      if acked then (if fin then TIME_WAIT else FIN_WAIT2) else (if fin then CLOSING else FIN_WAIT1)
    case FIN_WAIT2 => if fin then TIME_WAIT else FIN_WAIT2
    case other => other
  }

  lemma StateExactly(t: Tcb, s: Segment, ok: bool)
    requires t.rx.WindowOk() && Regular(t, s) && s.ack && SegmentArrives(t, s, ok).Done?
    ensures var st := SegmentArrives(t, s, ok).tcb.state;
            && (GoesOn(t, s, ok) ==> st == Destination(t.state, NewAck(t, s), s.fin))
            && (!GoesOn(t, s, ok) ==>
                  st == if t.state == CLOSING && NewAck(t, s) then TIME_WAIT
                        else if t.state == LAST_ACK && NewAck(t, s) then CLOSED
                        else t.state)
  {
    hide RecvText, InReach;
  }

  /** SYN-SENT, as section 3.9 of RFC 793 has it. */
  lemma SynSentExactly(t: Tcb, s: Segment, ok: bool)
    requires t.rx.WindowOk() && t.state == SYN_SENT && t.una <= t.iss
    ensures var r := SegmentArrives(t, s, ok);
            var good := s.ack ==> t.iss < s.ackNo <= t.nxt;
            && r.Done? && !r.fin
            && (r.tcb.state == CLOSED <==> s.ack && good && s.rst)
            && (r.tcb.state == ESTABLISHED <==> s.ack && good && !s.rst && s.syn)
            && (r.tcb.state == SYN_RECV <==> !s.ack && !s.rst && s.syn)
            && (r.tcb.state == CLOSED || r.tcb.state == SYN_SENT ==> r.tcb.rx == t.rx)
            && (r.tcb.state == ESTABLISHED || r.tcb.state == SYN_RECV ==>
                  r.tcb.irs == s.text.start && r.tcb.rx.nxt == s.text.start + 1 && r.tcb.rx.Pending() == t.rx.Pending())
            && (r.tcb.state == ESTABLISHED ==>
                  r.tcb.wnd == s.window && r.tcb.wl1 == s.text.start && r.tcb.wl2 == s.ackNo)
  {
  }

  // ------------------------------------------------------------------------ acknowledgments over runs

  /** The acknowledgment numbers that count in a run, in order. */
  function AcksTaken(c: Conn, es: seq<Event>): seq<nat>
    requires Inv(c) && AllWellformed(es)
    decreases |es|
  {
    if es == [] then []
    else
      var now := if es[0].Arrive? then AckTaken(c.tcb, es[0].seg, es[0].accepts) else None;
      (match now case None => [] case Some(a) => [a])
      + (match Step(c, es[0])
         case None => []
         case Some(d) => StepKeepsInv(c, es[0]); AcksTaken(d, es[1..]))
  }

  function Largest(a: nat, xs: seq<nat>): nat
    decreases |xs|
  {
    if xs == [] then a else Largest(if xs[0] > a then xs[0] else a, xs[1..])
  }

  lemma {:induction false} LargestIs(a: nat, xs: seq<nat>)
    ensures a <= Largest(a, xs) && (forall x :: x in xs ==> x <= Largest(a, xs))
    ensures Largest(a, xs) == a || Largest(a, xs) in xs
    decreases |xs|
  {
    if xs != [] {
      assert forall x :: x in xs <==> x == xs[0] || x in xs[1..];
      LargestIs(if xs[0] > a then xs[0] else a, xs[1..]);
    }
  }

  lemma UnaStep(c: Conn, e: Event)
    requires Inv(c) && Step(c, e).Some? && !e.UserConnect?
    ensures var now := if e.Arrive? then AckTaken(c.tcb, e.seg, e.accepts) else None;
            Step(c, e).value.tcb.una == (match now case None => c.tcb.una case Some(a) => a)
            && (now.Some? ==> c.tcb.una <= now.value)
  {
    hide SegmentArrives, InReach, ReadBuf;
    if e.Arrive? {
      UnaExactly(c.tcb, e.seg, e.accepts);
    }
  }

  /** In every run snd_una is the largest acknowledgment number taken: each is recorded, none is invented. */
  lemma {:induction false} UnaIsLargestAck(c: Conn, es: seq<Event>)
    requires Inv(c) && AllWellformed(es) && NoConnect(es)
    ensures Run(c, es).Some? ==> Run(c, es).value.tcb.una == Largest(c.tcb.una, AcksTaken(c, es))
    decreases |es|
  {
    hide Step, AckTaken;
    if es != [] && Step(c, es[0]).Some? {
      assert es[0] in es;
      UnaStep(c, es[0]);
      StepKeepsInv(c, es[0]);
      var d := Step(c, es[0]).value;
      UnaIsLargestAck(d, es[1..]);
      var now := if es[0].Arrive? then AckTaken(c.tcb, es[0].seg, es[0].accepts) else None;
      match now
      case None => assert [] + AcksTaken(d, es[1..]) == AcksTaken(d, es[1..]);
      case Some(a) => assert ([a] + AcksTaken(d, es[1..]))[1..] == AcksTaken(d, es[1..]);
    }
  }
}
