/** Whole runs of the receive path: segments arrive in any order while the user reads. */
module TcpStream {
  import opened Wrappers
  import opened Bytes
  import opened TcpReceive
  import opened TcpReceiveProofs

  datatype Event =
    | Arrive(text: Text, psh: bool, stray: nat)
    | Read(n: nat)

  /** Receiver and everything the user has read so far. */
  datatype Session = Session(rx: Rx, out: seq<byte>)

  function Fresh(base: nat): Session {
    Session(Rx(base, DEFAULT_WINDOW, NoRing, [], false, false, false), [])
  }

  function Step(s: Session, e: Event): Option<Session>
    requires s.rx.WindowOk()
  {
    match e
    case Read(n) => Some(Session(ReadBuf(s.rx, n), s.out + s.rx.Pending()[..ReadLen(s.rx, n)]))
    case Arrive(t, psh, stray) =>
      match RecvText(s.rx, t, psh, stray)
      case Abort => None
      case Fine(r, _) => Some(Session(r, s.out))
  }

  lemma StepWindowOk(s: Session, e: Event)
    requires s.rx.WindowOk() && Step(s, e).Some?
    ensures Step(s, e).value.rx.WindowOk()
  {
    if e.Arrive? && s.rx.wnd > 0 && TrimHead(e.text, s.rx.nxt).Some? {
      var t := TrimHead(e.text, s.rx.nxt).value;
      var p := Place(e.stray, s.rx.queue, t);
      if !(s.rx.nxt == t.start && s.rx.queue == []) && p.Put? {
        DrainWindowOk(s.rx.(queue := p.queue), 0);
      }
    }
  }

  lemma {:induction false} DrainWindowOk(r: Rx, got: nat)
    requires r.Writable() && Drain(r, got).Some?
    ensures Drain(r, got).value.0.Writable()
    decreases |r.queue|
  {
    if r.queue != [] && r.queue[0].start == r.nxt && WriteLen(r, r.queue[0].data) > 0 {
      DrainWindowOk(WriteBuf(r, r.queue[0].data).(queue := r.queue[1..]), got + WriteLen(r, r.queue[0].data));
    }
  }

  /** The session after all of `es`, or None if an assertion failed on the way. */
  function Run(s: Session, es: seq<Event>): Option<Session>
    requires s.rx.WindowOk()
    decreases |es|
  {
    if es == [] then Some(s)
    else match Step(s, es[0])
      case None => None
      case Some(s') => StepWindowOk(s, es[0]); Run(s', es[1..])
  }

  // ----------------------------------------------------------------------------------- safety

  /** Each segment is a slice of the stream and leaves the queue ordered when it arrives. */
  predicate Honest(s: Session, es: seq<Event>, base: nat, stream: seq<byte>)
    requires s.rx.WindowOk()
    decreases |es|
  {
    es == [] ||
    ((es[0].Arrive? ==> Slice(es[0].text, base, stream) && Orderable(s.rx, es[0].text, es[0].stray))
     && match Step(s, es[0])
        case None => true
        case Some(s') => StepWindowOk(s, es[0]); Honest(s', es[1..], base, stream))
  }

  lemma StepStreams(s: Session, e: Event, base: nat, stream: seq<byte>)
    requires Streams(s.rx, base, stream, s.out)
    requires e.Arrive? ==> Slice(e.text, base, stream) && Orderable(s.rx, e.text, e.stray)
    ensures Step(s, e).Some? && Streams(Step(s, e).value.rx, base, stream, Step(s, e).value.out)
  {
    hide RecvText, Orderable;
    match e
    case Read(n) =>
      Assoc(s.out, s.rx.Pending()[..ReadLen(s.rx, n)], ReadBuf(s.rx, n).Pending());
    case Arrive(t, psh, stray) => RecvTextStreams(s.rx, t, psh, stray, base, stream, s.out);
  }

  /** In every honest run, octets read plus octets in the ring are the stream up to rcv_nxt. */
  lemma {:induction false} InOrderDelivery(s: Session, es: seq<Event>, base: nat, stream: seq<byte>)
    requires Streams(s.rx, base, stream, s.out) && Honest(s, es, base, stream)
    ensures Run(s, es).Some?
    ensures var f := Run(s, es).value;
            && base <= f.rx.nxt <= base + |stream|
            && f.out + f.rx.Pending() == stream[..f.rx.nxt - base]
            && f.rx.WindowOk() && Ordered(f.rx.nxt, f.rx.queue)
    decreases |es|
  {
    hide Step, Orderable, Slice;
    if es != [] {
      StepStreams(s, es[0], base, stream);
      InOrderDelivery(Step(s, es[0]).value, es[1..], base, stream);
    }
  }

  // ----------------------------------------------------------------------------- completeness

  /** Some segment of the run carried the octet at x. */
  predicate Arrived(es: seq<Event>, x: int) {
    es != [] && ((es[0].Arrive? && es[0].text.Has(x)) || Arrived(es[1..], x))
  }

  predicate InWindow(r: Rx, e: Event) {
    e.Arrive? ==> e.text.End() <= r.nxt + r.wnd
  }

  /** Each segment ends within the window advertised at that time, and is permitted. */
  predicate Permitting(s: Session, es: seq<Event>)
    requires s.rx.WindowOk()
    decreases |es|
  {
    es == [] ||
    (InWindow(s.rx, es[0]) && (es[0].Arrive? ==> Permitted(s.rx, es[0].text, es[0].stray))
     && match Step(s, es[0])
        case None => true
        case Some(s') => StepWindowOk(s, es[0]); Permitting(s', es[1..]))
  }

  lemma {:induction false} UptoWeaken(q: seq<Text>, hi: nat, hi': nat)
    requires Upto(q, hi) && hi <= hi'
    ensures Upto(q, hi')
    decreases |q|
  {
    if q != [] {
      UptoWeaken(q[1..], hi, hi');
    }
  }

  /** Reading moves the right edge up and nothing else. */
  lemma ReadKeeps(r: Rx, n: nat)
    requires r.WindowOk()
    ensures var r' := ReadBuf(r, n);
            && r'.nxt == r.nxt && r'.queue == r.queue
            && (Orderly(r) ==> Orderly(r')) && (Tidy(r) ==> Tidy(r'))
  {
    hide Ordered, Sorted, Upto, ReadBuf, Rx.WindowOk;
    ReadMovesEdge(r, n);
    if Upto(r.queue, r.nxt + r.wnd) {
      UptoWeaken(r.queue, r.nxt + r.wnd, ReadBuf(r, n).nxt + ReadBuf(r, n).wnd);
    }
  }

  lemma ReadMovesEdge(r: Rx, n: nat)
    requires r.WindowOk()
    ensures var r' := ReadBuf(r, n);
            r'.nxt == r.nxt && r'.queue == r.queue && r.wnd <= r'.wnd && r'.WindowOk()
  {
  }

  lemma StepTidy(s: Session, e: Event)
    requires Tidy(s.rx) && InWindow(s.rx, e) && (e.Arrive? ==> Permitted(s.rx, e.text, e.stray))
    ensures Step(s, e).Some?
    ensures var s' := Step(s, e).value;
            Tidy(s'.rx) && forall x :: Have(s'.rx, x) <==> Have(s.rx, x) || (e.Arrive? && e.text.Has(x))
  {
    hide RecvText, Permitted, Sorted, Upto;
    match e
    case Read(n) => ReadKeeps(s.rx, n);
    case Arrive(t, psh, stray) => RecvTextKeepsExactly(s.rx, t, psh, stray);
  }

  /**
   * Within the window rcv_nxt is exactly the first octet that has not arrived: everything below it
   * was delivered, and the queue holds every octet that arrived above it and no other.
   */
  lemma {:induction false} NextIsFirstGap(s: Session, es: seq<Event>)
    requires Tidy(s.rx) && Permitting(s, es)
    ensures Run(s, es).Some?
    ensures var f := Run(s, es).value;
            && Tidy(f.rx)
            && (forall x :: Have(f.rx, x) <==> Have(s.rx, x) || Arrived(es, x))
            && !Have(f.rx, f.rx.nxt)
    decreases |es|
  {
    hide Step, Permitted;
    if es == [] {
      GapAhead(s.rx);
    } else {
      StepTidy(s, es[0]);
      var s' := Step(s, es[0]).value;
      NextIsFirstGap(s', es[1..]);
      forall x
        ensures Have(Run(s, es).value.rx, x) <==> Have(s.rx, x) || Arrived(es, x)
      {
        assert Have(s'.rx, x) <==> Have(s.rx, x) || (es[0].Arrive? && es[0].text.Has(x));
      }
    }
  }

  lemma GapAhead(r: Rx)
    requires Tidy(r)
    ensures !Have(r, r.nxt)
  {
    SortedExactly(r.nxt, r.queue);
    if r.queue != [] {
      NotBelow(r.queue[0].start, r.queue, r.nxt);
    }
  }

  // ------------------------------------------------------------------------- segments without text

  /** Each segment ends within the window and leaves the queue ordered; it may be without text. */
  predicate Ordering(s: Session, es: seq<Event>)
    requires s.rx.WindowOk()
    decreases |es|
  {
    es == [] ||
    (InWindow(s.rx, es[0]) && (es[0].Arrive? ==> Orderable(s.rx, es[0].text, es[0].stray))
     && match Step(s, es[0])
        case None => true
        case Some(s') => StepWindowOk(s, es[0]); Ordering(s', es[1..]))
  }

  /** No segment starts below `e` and reaches it. */
  predicate NoneReaches(es: seq<Event>, e: nat) {
    forall a :: a in es && a.Arrive? ==> !(a.text.start < e <= a.text.End())
  }

  lemma StepOrderly(s: Session, a: Event, e: nat)
    requires Orderly(s.rx) && InWindow(s.rx, a) && (a.Arrive? ==> Orderable(s.rx, a.text, a.stray))
    ensures Step(s, a).Some? && Orderly(Step(s, a).value.rx)
    ensures Blank(s.rx.queue, e) && NoneReaches([a], e) ==> Blank(Step(s, a).value.rx.queue, e)
  {
    hide RecvText, Safe, Ordered, Upto, Stuck, Blank, Spent;
    match a
    case Read(n) => ReadKeeps(s.rx, n);
    case Arrive(t, psh, stray) =>
      RecvTextExact(s.rx, t, psh, stray);
      assert a in [a];
  }

  /**
   * A queued blank stays, and rcv_nxt never gets past it, until a segment that starts below it
   * reaches it; when rcv_nxt gets there, delivery has stopped.
   */
  lemma {:induction false} BlankStays(s: Session, es: seq<Event>, e: nat)
    requires Orderly(s.rx) && Ordering(s, es) && Blank(s.rx.queue, e) && NoneReaches(es, e)
    ensures Run(s, es).Some?
    ensures var r := Run(s, es).value.rx;
            Orderly(r) && Blank(r.queue, e) && r.nxt <= e && (r.nxt == e ==> Stuck(r))
    decreases |es|
  {
    hide Step, Orderable;
    if es == [] {
      BlankAhead(s.rx, e);
    } else {
      assert es[0] in es;
      assert NoneReaches([es[0]], e);
      StepOrderly(s, es[0], e);
      BlankStays(Step(s, es[0]).value, es[1..], e);
    }
  }

  lemma BlankAhead(r: Rx, e: nat)
    requires Orderly(r) && Blank(r.queue, e)
    ensures r.nxt <= e && (r.nxt == e ==> Stuck(r))
  {
    BlankAbove(r.queue[0].start, r.queue, e);
  }

  /** Every run that keeps the queue ordered has delivered everything up to a gap or a blank. */
  lemma {:induction false} EveryRunOrderly(s: Session, es: seq<Event>)
    requires Orderly(s.rx) && Ordering(s, es)
    ensures Run(s, es).Some? && Orderly(Run(s, es).value.rx)
    decreases |es|
  {
    hide Step, Orderable;
    if es != [] {
      StepOrderly(s, es[0], 0);
      EveryRunOrderly(Step(s, es[0]).value, es[1..]);
    }
  }

  /** Once delivery has stopped at a blank, no segment and no read ever advances rcv_nxt again. */
  lemma {:induction false} StuckForever(s: Session, es: seq<Event>)
    requires Stuck(s.rx)
    ensures Run(s, es).Some? ==> Stuck(Run(s, es).value.rx) && Run(s, es).value.rx.nxt == s.rx.nxt
    decreases |es|
  {
    hide Step, Stuck;
    StuckWindow(s.rx);
    if es != [] && Step(s, es[0]).Some? {
      StepWindowOk(s, es[0]);
      StuckStep(s, es[0]);
      StuckForever(Step(s, es[0]).value, es[1..]);
    }
  }

  lemma StuckWindow(r: Rx)
    requires Stuck(r)
    ensures r.WindowOk()
  {
  }

  lemma StuckStep(s: Session, e: Event)
    requires Stuck(s.rx) && Step(s, e).Some?
    ensures Stuck(Step(s, e).value.rx) && Step(s, e).value.rx.nxt == s.rx.nxt
  {
    if e.Arrive? && s.rx.wnd > 0 && TrimHead(e.text, s.rx.nxt).Some? {
      var t := TrimHead(e.text, s.rx.nxt).value;
      StuckReass(s.rx, t, e.psh, e.stray);
    }
  }

  lemma StuckReass(r: Rx, t: Text, psh: bool, stray: nat)
    requires Stuck(r) && r.wnd > 0 && r.nxt <= t.start && Reass(r, t, psh, stray).Fine?
    ensures Stuck(Reass(r, t, psh, stray).rx) && Reass(r, t, psh, stray).rx.nxt == r.nxt
  {
    hide Place, Drain;
    StuckPlace(r.queue, t, stray);
    var p := Place(stray, r.queue, t);
    if p.Put? {
      StuckDrain(r.(queue := p.queue));
    }
  }

  /** A segment goes behind a blank at its own start or below. */
  lemma StuckPlace(q: seq<Text>, t: Text, stray: nat)
    requires q != [] && q[0].start <= t.start
    ensures !Place(stray, q, t).Wrap? ==> Place(stray, q, t).queue != [] && Place(stray, q, t).queue[0] == q[0]
  {
  }

  lemma StuckDrain(r: Rx)
    requires Stuck(r) && r.Writable()
    ensures Drain(r, 0) == Some((WriteBuf(r, []), 0))
  {
  }
}
