/** What every run of a connection keeps. */
module TcpRuns {
  import opened Wrappers
  import opened Bytes
  import opened TcpReceive
  import opened TcpReceiveProofs
  import opened TcpConnection
  import TcpStream

  datatype Event =
    | Arrive(seg: Segment, accepts: bool)
    | UserConnect(newIss: nat)
    | UserConnectReturn(err: bool)
    | UserClose
    | UserSend(n: nat)
    | UserRead(n: nat)
    | TimeWaitTimer

  /** A connection and what happened on it since it was opened. */
  datatype Conn = Conn(
    tcb: Tcb,
    sent: nat,         // octets of text sent
    fins: nat,         // FINs sent
    finSeen: bool,     // a FIN of the peer was processed
    out: seq<byte>     // octets that left the ring: read, or thrown away by close
  )

  /** The next connection, or None when an assertion of the receive path fails. */
  function Step(c: Conn, e: Event): Option<Conn>
    requires c.tcb.rx.WindowOk()
  {
    var t := c.tcb;
    match e
    case Arrive(s, accepts) =>
      (match SegmentArrives(t, s, accepts)
       case Aborted => None
       case Done(u, fin) => Some(c.(tcb := u, finSeen := c.finSeen || fin)))
    case UserConnect(iss) =>
      Some(if t.state == CLOSED then Conn(Connect(t, iss), 0, 0, false, c.out) else c)
    case UserConnectReturn(err) => Some(c.(tcb := ConnectReturn(t, err)))
    case UserClose =>
      Some(c.(tcb := Close(t), fins := c.fins + (if ClosesWithFin(t.state) then 1 else 0),
              out := c.out + t.rx.Pending()))
    case UserSend(n) => Some(c.(tcb := Send(t, n), sent := c.sent + SendLen(t, n)))
    case UserRead(n) =>
      Some(if Reads(t)
           then c.(tcb := t.(rx := ReadBuf(t.rx, n)), out := c.out + t.rx.Pending()[..ReadLen(t.rx, n)])
           else c)
    case TimeWaitTimer => Some(c.(tcb := TimeWaitOver(t)))
  }

  // -------------------------------------------------------------------- sequence space and states

  predicate Open(st: State) {
    st != CLOSED && st != LISTEN
  }

  /** Our FIN has been sent in exactly these states. */
  predicate FinSentState(st: State) {
    st == FIN_WAIT1 || st == FIN_WAIT2 || st == CLOSING || st == LAST_ACK || st == TIME_WAIT
  }

  /** The peer's FIN has been processed in exactly these states. */
  predicate FinSeenState(st: State) {
    st == CLOSE_WAIT || st == CLOSING || st == LAST_ACK || st == TIME_WAIT
  }

  predicate Inv(c: Conn) {
    var t := c.tcb;
    && t.rx.WindowOk() && c.fins <= 1 && t.wnd < 0x1_0000
    && (Open(t.state) ==>
          && t.iss <= t.una <= t.nxt
          && t.nxt == t.iss + 1 + c.sent + c.fins
          && (c.fins == 1 <==> FinSentState(t.state))
          && (c.finSeen <==> FinSeenState(t.state)))
    && (t.state == SYN_SENT || t.state == SYN_RECV ==> t.una == t.iss && c.sent == 0)
  }

  lemma RecvTextWindowOk(r: Rx, s: Text, psh: bool, stray: nat)
    requires r.WindowOk() && RecvText(r, s, psh, stray).Fine?
    ensures RecvText(r, s, psh, stray).rx.WindowOk()
  {
    TcpStream.StepWindowOk(TcpStream.Session(r, []), TcpStream.Arrive(s, psh, stray));
  }

  /** Every event keeps the invariant; no assumption on the peer is needed. */
  lemma StepKeepsInv(c: Conn, e: Event)
    requires Inv(c) && Step(c, e).Some? && (e.Arrive? ==> e.seg.Wellformed())
    ensures Inv(Step(c, e).value)
  {
    hide SegmentArrives, ReadBuf;
    if e.UserRead? {
      ReadSplits(c.tcb.rx, e.n);
    }
    if e.Arrive? {
      ArriveKeepsInv(c, e.seg, e.accepts);
    }
  }

  lemma SynSentKeepsInv(c: Conn, s: Segment)
    requires Inv(c) && s.Wellformed() && c.tcb.state == SYN_SENT
    ensures Inv(c.(tcb := SynSent(c.tcb, s)))
  {
  }

  lemma AckKeepsInv(c: Conn, s: Segment, accepts: bool)
    requires Inv(c) && s.Wellformed() && c.tcb.state != SYN_SENT
    ensures var a := AckStep(c.tcb, s, accepts);
            && Inv(c.(tcb := a.tcb)) && a.tcb.state != SYN_SENT
            && (a.go ==> a.tcb.state != SYN_RECV)
  {
  }

  lemma TextKeepsWindow(t: Tcb, s: Segment)
    requires t.rx.WindowOk() && TextStep(t, s).Fine?
    ensures TextStep(t, s).rx.WindowOk()
  {
    if TakesText(t.state) && (s.psh || |s.text.data| > 0) {
      RecvTextWindowOk(t.rx, s.text, s.psh, t.wnd);
    }
  }

  lemma TextAndFinKeepInv(c: Conn, s: Segment)
    requires Inv(c) && c.tcb.state != SYN_RECV && c.tcb.state != SYN_SENT
    requires TextAndFin(c.tcb, s).Done?
    ensures var d := TextAndFin(c.tcb, s);
            Inv(c.(tcb := d.tcb, finSeen := c.finSeen || d.fin))
  {
    TextKeepsWindow(c.tcb, s);
  }

  lemma ArriveKeepsInv(c: Conn, s: Segment, accepts: bool)
    requires Inv(c) && s.Wellformed() && SegmentArrives(c.tcb, s, accepts).Done?
    ensures var d := SegmentArrives(c.tcb, s, accepts);
            Inv(c.(tcb := d.tcb, finSeen := c.finSeen || d.fin))
  {
    hide AckStep, TextAndFin, SynSent, InReach;
    var t := c.tcb;
    if t.state == SYN_SENT {
      SynSentKeepsInv(c, s);
    } else if Open(t.state) && SeqCheck(t, s) && !s.rst {
      var c1 := c.(tcb := if s.syn then t.(state := CLOSED) else t);
      var a := AckStep(c1.tcb, s, accepts);
      AckKeepsInv(c1, s, accepts);
      if s.ack && a.go {
        TextAndFinKeepInv(c1.(tcb := a.tcb), s);
      }
    }
  }

  predicate AllWellformed(es: seq<Event>) {
    forall e :: e in es && e.Arrive? ==> e.seg.Wellformed()
  }

  /** The connection after all of `es`, or None if an assertion failed on the way. */
  function Run(c: Conn, es: seq<Event>): Option<Conn>
    requires Inv(c) && AllWellformed(es)
    decreases |es|
  {
    if es == [] then Some(c)
    else match Step(c, es[0])
      case None => None
      case Some(d) => StepKeepsInv(c, es[0]); Run(d, es[1..])
  }

  /**
   * In every run: iss <= una <= nxt, the send sequence space accounts for the SYN, every octet
   * sent and the FIN, at most one FIN is sent, and the state says which FINs were exchanged.
   */
  lemma {:induction false} EveryRunKeepsInv(c: Conn, es: seq<Event>)
    requires Inv(c) && AllWellformed(es)
    ensures Run(c, es).Some? ==>
              var f := Run(c, es).value;
              && f.fins <= 1 && f.tcb.rx.WindowOk()
              && (Open(f.tcb.state) ==>
                    && f.tcb.iss <= f.tcb.una <= f.tcb.nxt
                    && f.tcb.nxt == f.tcb.iss + 1 + f.sent + f.fins
                    && (f.fins == 1 <==> FinSentState(f.tcb.state))
                    && (f.finSeen <==> FinSeenState(f.tcb.state)))
    decreases |es|
  {
    if es != [] && Step(c, es[0]).Some? {
      StepKeepsInv(c, es[0]);
      EveryRunKeepsInv(Step(c, es[0]).value, es[1..]);
    }
  }

  /** Both ways to open a connection establish the invariant. */
  lemma OpeningEstablishesInv(t: Tcb, s: Segment, iss: nat, out: seq<byte>)
    requires t.state == CLOSED && t.rx.WindowOk() && t.wnd < 0x1_0000
    ensures Inv(Conn(Connect(t, iss), 0, 0, false, out))
    ensures Inv(Conn(Child(s, iss), 0, 0, false, out))
  {
  }

  predicate NoConnect(es: seq<Event>) {
    forall e :: e in es ==> !e.UserConnect?
  }

  lemma ArriveUna(t: Tcb, s: Segment, accepts: bool)
    requires t.rx.WindowOk() && SegmentArrives(t, s, accepts).Done?
    requires t.state == SYN_SENT ==> t.una == t.iss
    ensures t.una <= SegmentArrives(t, s, accepts).tcb.una
  {
    hide RecvText, InReach;
  }

  /** SND.UNA never moves back within a connection. */
  lemma {:induction false} UnaNeverDecreases(c: Conn, es: seq<Event>)
    requires Inv(c) && AllWellformed(es) && NoConnect(es)
    ensures Run(c, es).Some? ==> c.tcb.una <= Run(c, es).value.tcb.una
    decreases |es|
  {
    hide SegmentArrives;
    if es != [] && Step(c, es[0]).Some? {
      if es[0].Arrive? {
        ArriveUna(c.tcb, es[0].seg, es[0].accepts);
      }
      StepKeepsInv(c, es[0]);
      UnaNeverDecreases(Step(c, es[0]).value, es[1..]);
    }
  }

  /** The send window stems from segment (SND.WL1, SND.WL2); that segment is no older than (a, b). */
  predicate NoOlder(a: nat, b: nat, t: Tcb) {
    a < t.wl1 || (a == t.wl1 && b <= t.wl2)
  }

  predicate Synchronized(st: State) {
    st != SYN_SENT && st != SYN_RECV
  }

  lemma ArriveWindow(t: Tcb, s: Segment, accepts: bool)
    requires t.rx.WindowOk() && Synchronized(t.state) && SegmentArrives(t, s, accepts).Done?
    ensures var u := SegmentArrives(t, s, accepts).tcb;
            && Synchronized(u.state) && NoOlder(t.wl1, t.wl2, u)
            && (u.wnd == t.wnd || (u.wnd == s.window && u.wl1 == s.text.start && u.wl2 == s.ackNo))
  {
    hide RecvText, InReach, AckStep;
    AckWindow(if s.syn then t.(state := CLOSED) else t, s, accepts);
  }

  lemma AckWindow(t: Tcb, s: Segment, accepts: bool)
    requires Synchronized(t.state)
    ensures var u := AckStep(t, s, accepts).tcb;
            && Synchronized(u.state) && NoOlder(t.wl1, t.wl2, u)
            && (u.wnd == t.wnd || (u.wnd == s.window && u.wl1 == s.text.start && u.wl2 == s.ackNo))
  {
  }

  /** Once synchronized, a connection never takes its send window from an older segment. */
  lemma {:induction false} WindowNeverOlder(c: Conn, es: seq<Event>)
    requires Inv(c) && AllWellformed(es) && NoConnect(es) && Synchronized(c.tcb.state)
    ensures Run(c, es).Some? ==> NoOlder(c.tcb.wl1, c.tcb.wl2, Run(c, es).value.tcb)
    decreases |es|
  {
    hide SegmentArrives, NoOlder;
    assert NoOlder(c.tcb.wl1, c.tcb.wl2, c.tcb) by {
      NoOlderItself(c.tcb);
    }
    if es != [] && Step(c, es[0]).Some? {
      var d := Step(c, es[0]).value;
      if es[0].Arrive? {
        ArriveWindow(c.tcb, es[0].seg, es[0].accepts);
      } else {
        SameOrigin(c, es[0]);
      }
      StepKeepsInv(c, es[0]);
      WindowNeverOlder(d, es[1..]);
      if Run(c, es).Some? {
        NoOlderTransitive(c.tcb, d.tcb, Run(c, es).value.tcb);
      }
    }
  }

  lemma NoOlderItself(t: Tcb)
    ensures NoOlder(t.wl1, t.wl2, t)
  {
  }

  lemma NoOlderTransitive(t: Tcb, u: Tcb, v: Tcb)
    requires NoOlder(t.wl1, t.wl2, u) && NoOlder(u.wl1, u.wl2, v)
    ensures NoOlder(t.wl1, t.wl2, v)
  {
  }

  lemma SameOrigin(c: Conn, e: Event)
    requires c.tcb.rx.WindowOk() && !e.Arrive? && !e.UserConnect? && Synchronized(c.tcb.state)
    ensures Step(c, e).Some?
    ensures var u := Step(c, e).value.tcb; Synchronized(u.state) && NoOlder(c.tcb.wl1, c.tcb.wl2, u)
  {
  }

  // ------------------------------------------------------------------------- acceptable segments

  /** The table of section 3.3 of RFC 793. */
  predicate RfcAcceptable(nxt: nat, wnd: nat, s: Segment) {
    if s.Len() == 0 then s.text.start == nxt || (wnd > 0 && nxt <= s.text.start < nxt + wnd)
    else wnd > 0 && (nxt <= s.text.start < nxt + wnd || nxt <= s.LastSeq() < nxt + wnd)
  }

  /**
   * seq_check takes every segment the table takes, and beyond it exactly those that reach over
   * both edges of the window; for a closed window these are the ones that occupy rcv_nxt.
   */
  lemma SeqCheckExactly(nxt: nat, wnd: nat, s: Segment)
    ensures InReach(nxt, wnd, s) <==>
              RfcAcceptable(nxt, wnd, s)
              || (s.Len() > 0 && s.text.start <= nxt && nxt + wnd <= s.LastSeq())
  {
  }

  // -------------------------------------------------------------------------- the state diagram

  /** One arrow of figure 6 of RFC 793, or the loss of the connection. */
  predicate Arrow(a: State, b: State) {
    || a == b || b == CLOSED
    || (a == CLOSED && b == SYN_SENT)
    || (a == SYN_SENT && (b == ESTABLISHED || b == SYN_RECV))
    || (a == SYN_RECV && b == ESTABLISHED)
    || (a == ESTABLISHED && (b == FIN_WAIT1 || b == CLOSE_WAIT))
    || (a == FIN_WAIT1 && (b == FIN_WAIT2 || b == CLOSING))
    || (a == FIN_WAIT2 && b == TIME_WAIT)
    || (a == CLOSING && b == TIME_WAIT)
    || (a == CLOSE_WAIT && b == LAST_ACK)
  }

  /** Every event follows the diagram; one segment takes at most two arrows. */
  lemma FollowsDiagram(c: Conn, e: Event)
    requires c.tcb.rx.WindowOk() && Step(c, e).Some?
    ensures exists mid :: Arrow(c.tcb.state, mid) && Arrow(mid, Step(c, e).value.tcb.state)
  {
    var a, b := c.tcb.state, Step(c, e).value.tcb.state;
    if e.Arrive? {
      var mid := ArriveArrows(c.tcb, e.seg, e.accepts);
      assert Arrow(a, mid) && Arrow(mid, b);
    } else {
      assert Arrow(a, a) && Arrow(a, b);
    }
  }

  lemma ArriveArrows(t: Tcb, s: Segment, accepts: bool) returns (mid: State)
    requires t.rx.WindowOk() && SegmentArrives(t, s, accepts).Done?
    ensures Arrow(t.state, mid) && Arrow(mid, SegmentArrives(t, s, accepts).tcb.state)
  {
    if !Open(t.state) || t.state == SYN_SENT || !SeqCheck(t, s) || s.rst || !s.ack || s.syn {
      mid := t.state;
    } else {
      mid := AckStep(t, s, accepts).tcb.state;
    }
  }

  // ------------------------------------------------------------- is our FIN really acknowledged?

  /** The moves that are meant to say that our FIN was acknowledged. */
  predicate TakenAsAcked(a: State, b: State) {
    || (a == FIN_WAIT1 && (b == FIN_WAIT2 || b == TIME_WAIT))
    || (a == CLOSING && b == TIME_WAIT)
    || (a == LAST_ACK && b == CLOSED)
  }

  /** A segment that does not reset the connection makes such a move. */
  predicate TakesAsAcked(t: Tcb, s: Segment, ok: bool)
    requires t.rx.WindowOk()
  {
    var r := SegmentArrives(t, s, ok);
    !s.rst && !s.syn && r.Done? && TakenAsAcked(t.state, r.tcb.state)
  }

  /**
   * In FIN_WAIT1, CLOSING and LAST_ACK the code moves on with any new acknowledgment; that is right
   * for every segment that can arrive if and only if nothing but the FIN was outstanding.
   */
  lemma FinAckedExactly(t: Tcb)
    requires t.state == FIN_WAIT1 || t.state == CLOSING || t.state == LAST_ACK
    requires t.iss <= t.una <= t.nxt && t.rx.WindowOk()
    ensures (forall s: Segment, ok: bool ::
               TakesAsAcked(t, s, ok) ==> SegmentArrives(t, s, ok).tcb.una == t.nxt)
            <==> t.nxt <= t.una + 1
  {
    if t.una + 1 < t.nxt {
      var s := Segment(Text(t.rx.nxt, []), t.una + 1, 0, false, false, false, false, true);
      PartlyAcked(t, s);
    } else {
      hide SegmentArrives;
      forall s: Segment, ok: bool | TakesAsAcked(t, s, ok)
        ensures SegmentArrives(t, s, ok).tcb.una == t.nxt
      {
        MovesOnNewAck(t, s, ok);
      }
    }
  }

  lemma PartlyAcked(t: Tcb, s: Segment)
    requires t.state == FIN_WAIT1 || t.state == CLOSING || t.state == LAST_ACK
    requires t.una + 1 < t.nxt && t.rx.WindowOk()
    requires s == Segment(Text(t.rx.nxt, []), t.una + 1, 0, false, false, false, false, true)
    ensures TakesAsAcked(t, s, true) && SegmentArrives(t, s, true).tcb.una == t.una + 1
  {
    hide RecvText;
  }

  lemma MovesOnNewAck(t: Tcb, s: Segment, ok: bool)
    requires t.state == FIN_WAIT1 || t.state == CLOSING || t.state == LAST_ACK
    requires t.rx.WindowOk() && TakesAsAcked(t, s, ok)
    ensures t.una < SegmentArrives(t, s, ok).tcb.una <= t.nxt
  {
    hide RecvText, InReach;
  }

  // --------------------------------------------------------- rcv_nxt behind the peer's FIN, exactly

  /** Trimming leaves a sequence number inside the segment; an empty segment keeps its own. */
  predicate StartsWithin(s: Text, start: nat) {
    if s.data == [] then start == s.start else s.start <= start < s.End()
  }

  lemma {:induction false} AbsorbStart(t: Text, q: seq<Text>)
    requires !Absorb(t, q).Wrap?
    ensures Absorb(t, q).start == t.start
    decreases |q|
  {
    if q != [] && q[0].End() <= t.End() {
      AbsorbStart(t, q[1..]);
    }
  }

  lemma {:induction false} PlaceStart(prevEnd: nat, q: seq<Text>, s: Text)
    requires !Place(prevEnd, q, s).Wrap?
    ensures StartsWithin(s, Place(prevEnd, q, s).start)
    decreases |q|
  {
    if q != [] && s.start < q[0].start {
      if TrimHead(s, prevEnd).Some? {
        AbsorbStart(TrimHead(s, prevEnd).value, q);
      }
    } else if q != [] {
      PlaceStart(q[0].End(), q[1..], s);
    }
  }

  lemma RecvTextStart(r: Rx, s: Text, psh: bool, stray: nat)
    requires r.WindowOk() && RecvText(r, s, psh, stray).Fine?
    ensures StartsWithin(s, RecvText(r, s, psh, stray).start)
  {
    hide Place, Drain;
    if r.wnd > 0 && TrimHead(s, r.nxt).Some? {
      var t := TrimHead(s, r.nxt).value;
      if !(r.nxt == t.start && r.queue == []) {
        PlaceStart(stray, r.queue, t);
      }
    }
  }

  /** A segment without text delivers nothing where nothing was deliverable. */
  lemma EmptyDeliversNothing(r: Rx, s: Text, psh: bool, stray: nat)
    requires r.WindowOk() && (Drained(r) || Stuck(r)) && s.data == [] && RecvText(r, s, psh, stray).Fine?
    ensures RecvText(r, s, psh, stray).rx.nxt == r.nxt
  {
    hide Place, Drain;
    var p := Place(stray, r.queue, s);
    if Reassembled(r, s).Some? && p.Put? {
      PlaceEmptyHead(r.queue, s, stray);
      DrainNothing(r.(queue := p.queue));
    }
  }

  lemma PlaceEmptyHead(q: seq<Text>, t: Text, stray: nat)
    requires t.data == [] && Place(stray, q, t).Put?
    ensures var q' := Place(stray, q, t).queue; q' != [] && (q'[0] == t || (q != [] && q'[0] == q[0]))
  {
  }

  lemma DrainNothing(r: Rx)
    requires r.Writable() && r.queue != [] && (r.nxt < r.queue[0].start || r.queue[0].data == []) && Drain(r, 0).Some?
    ensures Drain(r, 0).value.0.nxt == r.nxt
  {
  }

  /** Everything before the FIN is delivered, nothing more, and rcv_nxt is one past the FIN. */
  predicate FinRight(t: Tcb, s: Segment)
    requires t.rx.WindowOk() && TextAndFin(t, s).Done?
  {
    TextStep(t, s).rx.nxt == s.text.End() && TextAndFin(t, s).tcb.rx.nxt == s.text.End() + 1
  }

  /**
   * The FIN of the peer is processed right if and only if it came without text, and exactly at
   * rcv_nxt. (A PUSH may drain the queue first, so with PUSH nothing deliverable must be left.)
   */
  lemma FinAdvancesExactly(t: Tcb, s: Segment)
    requires t.rx.WindowOk() && s.fin && TextAndFin(t, s).Done?
    requires s.psh ==> Drained(t.rx) || Stuck(t.rx)
    ensures FinRight(t, s) <==> s.text.data == [] && s.text.start == t.rx.nxt
  {
    hide RecvText, Stuck, Drained;
    if TakesText(t.state) && (s.psh || |s.text.data| > 0) {
      RecvTextStart(t.rx, s.text, s.psh, t.wnd);
      if s.text.data == [] {
        EmptyDeliversNothing(t.rx, s.text, s.psh, t.wnd);
      }
    }
  }

  /** A FIN at `start` acknowledges only octets that have arrived if and only if it overtakes nothing. */
  lemma SkipsMissingExactly(r: Rx, start: nat)
    requires Orderly(r) && Drained(r) && r.nxt <= start
    ensures (forall x :: x < start ==> Have(r, x)) <==> start == r.nxt
  {
    if r.queue != [] {
      NotBelow(r.queue[0].start, r.queue, r.nxt);
    }
    assert !Have(r, r.nxt);
  }

  /** A FIN without text that has overtaken `k` octets. */
  function OvertakingFin(t: Tcb, k: nat, window: nat): Segment {
    Segment(Text(t.rx.nxt + k, []), t.una, window, true, false, false, false, true)
  }

  /** It is taken at once: rcv_nxt passes over the missing octets, which are thereby acknowledged. */
  lemma FinOvertakes(t: Tcb, k: nat, window: nat, ok: bool)
    requires t.rx.WindowOk() && t.state == ESTABLISHED && t.una <= t.nxt && 0 < k < t.rx.wnd
    ensures var r := SegmentArrives(t, OvertakingFin(t, k, window), ok);
            && r.Done? && r.fin && r.tcb.state == CLOSE_WAIT
            && r.tcb.rx.nxt == t.rx.nxt + k + 1 && r.tcb.rx.Pending() == t.rx.Pending()
  {
    hide RecvText;
  }

  /** ... and whatever arrives later, they never enter the ring. */
  lemma OvertakenNeverArrive(c: Conn, k: nat, window: nat, ok: bool, es: seq<Event>)
    requires Inv(c) && c.tcb.state == ESTABLISHED && 0 < k < c.tcb.rx.wnd && NoConnect(es)
    requires AllWellformed([Arrive(OvertakingFin(c.tcb, k, window), ok)] + es)
    ensures var f := Run(c, [Arrive(OvertakingFin(c.tcb, k, window), ok)] + es);
            f.Some? ==> f.value.out + f.value.tcb.rx.Pending() == c.out + c.tcb.rx.Pending()
  {
    hide SegmentArrives;
    var e := Arrive(OvertakingFin(c.tcb, k, window), ok);
    var all := [e] + es;
    assert all[1..] == es && e in all && forall a :: a in es ==> a in all;
    FinOvertakes(c.tcb, k, window, ok);
    StepKeepsInv(c, e);
    NothingAfterFin(Step(c, e).value, es);
  }

  // ---------------------------------------------------------------------------- after a full close

  /** No ring, and no room to make one. */
  predicate Shut(t: Tcb) {
    t.rx.ring.NoRing? && t.rx.wnd == 0
  }

  lemma ShutArrives(t: Tcb, s: Segment, accepts: bool)
    requires Shut(t)
    ensures SegmentArrives(t, s, accepts).Done? && Shut(SegmentArrives(t, s, accepts).tcb)
  {
    hide InReach, AckStep, TrimHead, Reass, WriteBuf;
    AckLeavesRx(if s.syn then t.(state := CLOSED) else t, s, accepts);
  }

  /**
   * tcp_close frees the ring but does not give the window back: a socket closed while its ring is
   * full never takes an octet again, in any run and even after a new connect.
   */
  lemma FullCloseIsForever(c: Conn, es: seq<Event>)
    requires Inv(c) && AllWellformed([UserClose] + es) && c.tcb.rx.wnd == 0
    ensures var f := Run(c, [UserClose] + es);
            f.Some? && Shut(f.value.tcb) && f.value.out == c.out + c.tcb.rx.Pending()
  {
    var d := Step(c, UserClose).value;
    StepKeepsInv(c, UserClose);
    assert ([UserClose] + es)[1..] == es;
    assert forall e :: e in es ==> e in [UserClose] + es;
    ShutRun(d, es);
  }

  lemma ShutStep(c: Conn, e: Event)
    requires Inv(c) && Shut(c.tcb)
    ensures Step(c, e).Some? && Shut(Step(c, e).value.tcb) && Step(c, e).value.out == c.out
  {
    hide SegmentArrives;
    assert c.out + [] == c.out;
    if e.Arrive? {
      ShutArrives(c.tcb, e.seg, e.accepts);
    }
  }

  lemma {:induction false} ShutRun(c: Conn, es: seq<Event>)
    requires Inv(c) && AllWellformed(es) && Shut(c.tcb)
    ensures Run(c, es).Some? && Shut(Run(c, es).value.tcb) && Run(c, es).value.out == c.out
    decreases |es|
  {
    hide Step, Shut;
    if es != [] {
      ShutStep(c, es[0]);
      StepKeepsInv(c, es[0]);
      ShutRun(Step(c, es[0]).value, es[1..]);
    }
  }

  // ------------------------------------------------------------------------------ after the FIN

  predicate Deaf(st: State) {
    FinSeenState(st) || st == CLOSED || st == LISTEN
  }

  /** A connection that receives nothing any more never receives again, until it is reopened. */
  lemma DeafArrives(t: Tcb, s: Segment, accepts: bool)
    requires t.rx.WindowOk() && Deaf(t.state)
    ensures var r := SegmentArrives(t, s, accepts);
            r.Done? && Deaf(r.tcb.state) && r.tcb.rx.Pending() == t.rx.Pending()
  {
    hide RecvText, InReach, AckStep;
    var t1 := if s.syn then t.(state := CLOSED) else t;
    AckLeavesRx(t1, s, accepts);
    AckStaysDeaf(t1, s, accepts);
  }

  lemma AckStaysDeaf(t: Tcb, s: Segment, accepts: bool)
    requires Deaf(t.state)
    ensures Deaf(AckStep(t, s, accepts).tcb.state)
  {
  }

  /** Closing and reading move octets out of the ring, in order. */
  lemma ReadMoves(r: Rx, n: nat, out: seq<byte>)
    requires r.WindowOk()
    ensures out + r.Pending()[..ReadLen(r, n)] + ReadBuf(r, n).Pending() == out + r.Pending()
  {
    hide ReadBuf, ReadLen;
    ReadSplits(r, n);
    Assoc(out, r.Pending()[..ReadLen(r, n)], ReadBuf(r, n).Pending());
  }

  lemma ReadSplits(r: Rx, n: nat)
    requires r.WindowOk()
    ensures ReadLen(r, n) <= |r.Pending()|
    ensures r.Pending()[..ReadLen(r, n)] + ReadBuf(r, n).Pending() == r.Pending()
  {
  }

  lemma DeafStep(c: Conn, e: Event)
    requires Inv(c) && Deaf(c.tcb.state) && !e.UserConnect? && Step(c, e).Some?
    ensures var d := Step(c, e).value;
            Deaf(d.tcb.state) && d.out + d.tcb.rx.Pending() == c.out + c.tcb.rx.Pending()
  {
    hide SegmentArrives, ReadBuf, ReadLen;
    ReadSplits(c.tcb.rx, if e.UserRead? then e.n else 0);
    match e
    case UserRead(n) => ReadMoves(c.tcb.rx, n, c.out);
    case Arrive(s, accepts) => DeafArrives(c.tcb, s, accepts);
    case UserClose => assert c.out + c.tcb.rx.Pending() + [] == c.out + c.tcb.rx.Pending();
    case _ =>
  }

  /** Once the peer's FIN is processed no octet enters the ring: what is there leaves in order. */
  lemma {:induction false} NothingAfterFin(c: Conn, es: seq<Event>)
    requires Inv(c) && Deaf(c.tcb.state) && AllWellformed(es) && NoConnect(es)
    ensures Run(c, es).Some? ==>
              var f := Run(c, es).value;
              f.out + f.tcb.rx.Pending() == c.out + c.tcb.rx.Pending()
    decreases |es|
  {
    if es != [] && Step(c, es[0]).Some? {
      DeafStep(c, es[0]);
      StepKeepsInv(c, es[0]);
      NothingAfterFin(Step(c, es[0]).value, es[1..]);
    }
  }

  // ---------------------------------------------------------------- the stream through the states

  predicate Receiving(st: State) {
    TakesText(st) || st == SYN_RECV
  }

  /** Octets taken out plus octets in the ring are a prefix of the peer's stream. */
  predicate StreamInv(c: Conn, base: nat, stream: seq<byte>) {
    && Inv(c) && c.tcb.state != SYN_SENT
    && c.out + c.tcb.rx.Pending() <= stream
    && (Receiving(c.tcb.state) ==> Streams(c.tcb.rx, base, stream, c.out))
  }

  /** Both handshakes start the stream right after the peer's SYN, with nothing delivered. */
  lemma HandshakeStartsStream(c: Conn, s: Segment, iss: nat, stream: seq<byte>)
    requires Inv(c) && s.Wellformed()
    requires c.tcb.state == SYN_SENT && c.out == [] && c.tcb.rx.Pending() == [] && c.tcb.rx.queue == []
    ensures StreamInv(Conn(Child(s, iss), 0, 0, false, []), s.text.start + 1, stream)
    ensures Child(s, iss).irs == s.text.start
    ensures var t := SynSent(c.tcb, s);
            t.state == ESTABLISHED || t.state == SYN_RECV ==>
              StreamInv(c.(tcb := t), t.irs + 1, stream) && t.irs == s.text.start
  {
    SynSentKeepsInv(c, s);
  }

  /** Whichever window the connection ends up with, the segment leaves the queue ordered. */
  predicate OrderableAnyway(t: Tcb, s: Segment) {
    Orderable(t.rx, s.text, t.wnd) && Orderable(t.rx, s.text, s.window)
  }

  /** A segment with text is a slice of the stream and leaves the reassembly queue ordered. */
  predicate TextOk(c: Conn, e: Event, base: nat, stream: seq<byte>) {
    e.Arrive? && Receiving(c.tcb.state) && (e.seg.psh || |e.seg.text.data| > 0) ==>
      Slice(e.seg.text, base, stream) && OrderableAnyway(c.tcb, e.seg)
  }

  /** From 2^16 on the stray number, a window, never matters. */
  lemma HighNumbersAreOrderable(c: Conn, s: Segment)
    requires Inv(c) && s.Wellformed() && 0x1_0000 <= s.text.start && Orderable(c.tcb.rx, s.text, 0)
    ensures OrderableAnyway(c.tcb, s)
  {
  }

  lemma TextStreams(t: Tcb, s: Segment, base: nat, stream: seq<byte>, out: seq<byte>)
    requires Streams(t.rx, base, stream, out)
    requires s.psh || |s.text.data| > 0 ==> Slice(s.text, base, stream) && Orderable(t.rx, s.text, t.wnd)
    ensures TextStep(t, s).Fine? && Streams(TextStep(t, s).rx, base, stream, out)
  {
    if TakesText(t.state) && (s.psh || |s.text.data| > 0) {
      RecvTextStreams(t.rx, s.text, s.psh, t.wnd, base, stream, out);
    }
  }

  /** Text and FIN keep the stream: a FIN ends reception, so its rcv_nxt no longer matters. */
  lemma TextAndFinStreams(t: Tcb, s: Segment, base: nat, stream: seq<byte>, out: seq<byte>)
    requires Streams(t.rx, base, stream, out) && t.state != SYN_RECV
    requires s.psh || |s.text.data| > 0 ==> Slice(s.text, base, stream) && Orderable(t.rx, s.text, t.wnd)
    ensures TextAndFin(t, s).Done?
    ensures var u := TextAndFin(t, s).tcb;
            && out + u.rx.Pending() <= stream
            && (Receiving(u.state) ==> Streams(u.rx, base, stream, out))
  {
    hide Orderable, RecvText, Slice;
    TextStreams(t, s, base, stream, out);
    var rx := TextStep(t, s).rx;
    assert stream[..rx.nxt - base] <= stream;
  }

  lemma AckLeavesRx(t: Tcb, s: Segment, accepts: bool)
    ensures var a := AckStep(t, s, accepts);
            && a.tcb.rx == t.rx && (a.tcb.wnd == t.wnd || a.tcb.wnd == s.window)
            && (Receiving(a.tcb.state) ==> Receiving(t.state))
            && (a.go ==> a.tcb.state != SYN_RECV)
  {
  }

  lemma AcceptableStreams(t: Tcb, s: Segment, accepts: bool, base: nat, stream: seq<byte>, out: seq<byte>)
    requires Streams(t.rx, base, stream, out) && t.state != SYN_SENT
    requires s.psh || |s.text.data| > 0 ==> Slice(s.text, base, stream) && OrderableAnyway(t, s)
    ensures Acceptable(t, s, accepts).Done?
    ensures var u := Acceptable(t, s, accepts).tcb;
            && out + u.rx.Pending() <= stream
            && (Receiving(u.state) ==> Streams(u.rx, base, stream, out))
  {
    hide Orderable, RecvText, Slice, AckStep, TextAndFin;
    var t1 := if s.syn then t.(state := CLOSED) else t;
    AckLeavesRx(t1, s, accepts);
    var a := AckStep(t1, s, accepts);
    assert stream[..t.rx.nxt - base] <= stream;
    if s.ack && a.go {
      TextAndFinStreams(a.tcb, s, base, stream, out);
    }
  }

  lemma AcceptableLeavesSynSent(t: Tcb, s: Segment, accepts: bool)
    requires t.rx.WindowOk() && t.state != SYN_SENT && Acceptable(t, s, accepts).Done?
    ensures Acceptable(t, s, accepts).tcb.state != SYN_SENT
  {
    hide RecvText;
  }

  lemma ArriveStreams(c: Conn, s: Segment, accepts: bool, base: nat, stream: seq<byte>)
    requires StreamInv(c, base, stream) && s.Wellformed() && Receiving(c.tcb.state)
    requires s.psh || |s.text.data| > 0 ==> Slice(s.text, base, stream) && OrderableAnyway(c.tcb, s)
    ensures SegmentArrives(c.tcb, s, accepts).Done?
    ensures var u := SegmentArrives(c.tcb, s, accepts).tcb;
            && u.state != SYN_SENT && c.out + u.rx.Pending() <= stream
            && (Receiving(u.state) ==> Streams(u.rx, base, stream, c.out))
  {
    hide OrderableAnyway, Acceptable, InReach, Slice;
    assert stream[..c.tcb.rx.nxt - base] <= stream;
    if SeqCheck(c.tcb, s) && !s.rst {
      AcceptableStreams(c.tcb, s, accepts, base, stream, c.out);
      AcceptableLeavesSynSent(c.tcb, s, accepts);
    }
  }

  lemma UserStreamStep(c: Conn, e: Event, base: nat, stream: seq<byte>)
    requires StreamInv(c, base, stream) && !e.UserConnect? && !e.Arrive?
    ensures StreamInv(Step(c, e).value, base, stream)
  {
    hide ReadBuf, ReadLen, Ordered, Slices;
    StepKeepsInv(c, e);
    match e
    case UserRead(n) =>
      ReadSplits(c.tcb.rx, n);
      ReadMoves(c.tcb.rx, n, c.out);
      TcpStream.ReadKeeps(c.tcb.rx, n);
    case UserClose => CloseStreams(c, base, stream);
    case _ =>
  }

  lemma CloseStreams(c: Conn, base: nat, stream: seq<byte>)
    requires StreamInv(c, base, stream)
    ensures StreamInv(Step(c, UserClose).value, base, stream)
  {
    StepKeepsInv(c, UserClose);
    assert c.out + c.tcb.rx.Pending() + [] == c.out + c.tcb.rx.Pending();
  }

  lemma ArriveStreamStep(c: Conn, s: Segment, accepts: bool, base: nat, stream: seq<byte>)
    requires StreamInv(c, base, stream) && s.Wellformed()
    requires TextOk(c, Arrive(s, accepts), base, stream)
    ensures SegmentArrives(c.tcb, s, accepts).Done?
    ensures var r := SegmentArrives(c.tcb, s, accepts);
            StreamInv(c.(tcb := r.tcb, finSeen := c.finSeen || r.fin), base, stream)
  {
    hide SegmentArrives, OrderableAnyway, Slice, Streams;
    if Receiving(c.tcb.state) {
      ArriveStreams(c, s, accepts, base, stream);
    } else {
      DeafArrives(c.tcb, s, accepts);
    }
    ArriveKeepsInv(c, s, accepts);
  }

  lemma StreamStep(c: Conn, e: Event, base: nat, stream: seq<byte>)
    requires StreamInv(c, base, stream) && TextOk(c, e, base, stream)
    requires !e.UserConnect? && (e.Arrive? ==> e.seg.Wellformed())
    ensures Step(c, e).Some? && StreamInv(Step(c, e).value, base, stream)
  {
    if e.Arrive? {
      ArriveStreamStep(c, e.seg, e.accepts, base, stream);
    } else {
      UserStreamStep(c, e, base, stream);
    }
  }

  /** Each segment of the run is acceptable text when it arrives. */
  predicate TextsOk(c: Conn, es: seq<Event>, base: nat, stream: seq<byte>)
    requires Inv(c) && AllWellformed(es)
    decreases |es|
  {
    es == [] ||
    (TextOk(c, es[0], base, stream)
     && match Step(c, es[0])
        case None => true
        case Some(d) => StepKeepsInv(c, es[0]); TextsOk(d, es[1..], base, stream))
  }

  /**
   * Through every state, every interleaving with the user and every acknowledgment: no assertion
   * fails, what left the ring plus what is in it is a prefix of the peer's stream, and while text
   * is accepted that prefix ends exactly at rcv_nxt.
   */
  lemma {:induction false} EveryRunDeliversInOrder(c: Conn, es: seq<Event>, base: nat, stream: seq<byte>)
    requires StreamInv(c, base, stream) && AllWellformed(es) && NoConnect(es)
    requires TextsOk(c, es, base, stream)
    ensures Run(c, es).Some?
    ensures var f := Run(c, es).value;
            && f.out + f.tcb.rx.Pending() <= stream
            && (Receiving(f.tcb.state) ==>
                  base <= f.tcb.rx.nxt <= base + |stream|
                  && f.out + f.tcb.rx.Pending() == stream[..f.tcb.rx.nxt - base])
    decreases |es|
  {
    if es != [] {
      StreamStep(c, es[0], base, stream);
      EveryRunDeliversInOrder(Step(c, es[0]).value, es[1..], base, stream);
    }
  }
}
