/** Sender and receiver together: any order of arrival, with retransmissions, delivers the buffer. */
module TcpDelivery {
  import opened Wrappers
  import opened Bytes
  import opened TcpReceive
  import opened TcpReceiveProofs
  import opened TcpStream
  import opened TcpSender

  // ------------------------------------------------------------------ what a peer must not repeat

  /** Every segment ends within the window and does not start inside the last queued text. */
  predicate Gentle(s: Session, es: seq<Event>)
    requires s.rx.WindowOk()
    decreases |es|
  {
    es == [] ||
    (InWindow(s.rx, es[0])
     && (es[0].Arrive? && Reassembled(s.rx, es[0].text).Some? ==>
           !StartsInLast(s.rx.queue, Reassembled(s.rx, es[0].text).value))
     && match Step(s, es[0])
        case None => true
        case Some(s') => StepWindowOk(s, es[0]); Gentle(s', es[1..]))
  }

  /** Segments have text, are slices of the stream and lie above the stray number. */
  predicate Proper(es: seq<Event>, base: nat, stream: seq<byte>) {
    forall e :: e in es && e.Arrive? ==>
      |e.text.data| > 0 && Slice(e.text, base, stream) && e.stray <= base
  }

  lemma ProperPermitted(r: Rx, s: Text, stray: nat)
    requires |s.data| > 0 && stray <= s.start
    requires Reassembled(r, s).Some? ==> !StartsInLast(r.queue, Reassembled(r, s).value)
    ensures Permitted(r, s, stray)
  {
  }

  lemma PermittedIsOrderable(r: Rx, s: Text, stray: nat)
    requires Tidy(r) && Permitted(r, s, stray)
    ensures Orderable(r, s, stray)
  {
    SortedExactly(r.nxt, r.queue);
    match Reassembled(r, s)
    case None =>
    case Some(t) => SoundIsSafe(r.queue, t, stray, r.nxt);
  }

  lemma {:induction false} GentleIsFine(s: Session, es: seq<Event>, base: nat, stream: seq<byte>)
    requires Tidy(s.rx) && Gentle(s, es) && Proper(es, base, stream)
    ensures Permitting(s, es) && Honest(s, es, base, stream)
    decreases |es|
  {
    hide Step, Permitted, Orderable, Reassembled, StartsInLast, Tidy;
    TidyWindow(s.rx);
    if es != [] {
      if es[0].Arrive? {
        assert es[0] in es;
        ProperPermitted(s.rx, es[0].text, es[0].stray);
        PermittedIsOrderable(s.rx, es[0].text, es[0].stray);
      }
      StepTidy(s, es[0]);
      GentleIsFine(Step(s, es[0]).value, es[1..], base, stream);
    }
  }

  /** The texts that arrive, in order of arrival. */
  function Texts(es: seq<Event>): seq<Text> {
    if es == [] then []
    else (if es[0].Arrive? then [es[0].text] else []) + Texts(es[1..])
  }

  lemma {:induction false} TextsExactly(es: seq<Event>, t: Text)
    ensures t in Texts(es) <==> exists e :: e in es && e.Arrive? && e.text == t
    decreases |es|
  {
    if es != [] {
      TextsExactly(es[1..], t);
      assert forall e :: e in es <==> e == es[0] || e in es[1..];
    }
  }

  lemma {:induction false} ArrivedExactly(es: seq<Event>, x: int)
    ensures Arrived(es, x) <==> exists t :: t in Texts(es) && t.Has(x)
    decreases |es|
  {
    if es != [] {
      ArrivedExactly(es[1..], x);
      var first := if es[0].Arrive? then [es[0].text] else [];
      assert forall t :: t in Texts(es) <==> t in first || t in Texts(es[1..]);
    }
  }

  lemma {:induction false} CoversExactly(ts: seq<Text>, x: int)
    ensures Covers(ts, x) <==> exists t :: t in ts && t.Has(x)
    decreases |ts|
  {
    if ts != [] {
      CoversExactly(ts[1..], x);
      assert forall t :: t in ts <==> t == ts[0] || t in ts[1..];
    }
  }

  lemma {:induction false} SlicesMember(ts: seq<Text>, t: Text, base: nat, stream: seq<byte>)
    requires Slices(ts, base, stream) && t in ts
    ensures Slice(t, base, stream)
    decreases |ts|
  {
    if ts[0] != t {
      SlicesMember(ts[1..], t, base, stream);
    }
  }

  /** The pieces, each at least once and nothing else: exactly the octets of the stream arrive. */
  lemma PiecesArrive(base: nat, stream: seq<byte>, mss: nat, es: seq<Event>)
    requires mss >= 1 && forall t :: t in Texts(es) <==> t in Cut(base, stream, mss)
    requires forall e :: e in es && e.Arrive? ==> e.stray <= base
    ensures Proper(es, base, stream)
    ensures forall x :: Arrived(es, x) <==> base <= x < base + |stream|
  {
    hide Cut, Covers, Arrived, Slices, Slice, Texts;
    var ts := Cut(base, stream, mss);
    assert stream[0..] == stream;
    CutPartitions(base, stream, mss, base, stream);
    forall e | e in es && e.Arrive?
      ensures |e.text.data| > 0 && Slice(e.text, base, stream)
    {
      TextsExactly(es, e.text);
      SlicesMember(ts, e.text, base, stream);
    }
    forall x
      ensures Arrived(es, x) <==> base <= x < base + |stream|
    {
      ArrivedExactly(es, x);
      CoversExactly(ts, x);
    }
  }

  /**
   * Cut a buffer as tcp_send_text does, deliver the pieces in any order and any of them any number
   * of times, with reads in between: the user gets the buffer back, octet for octet, provided no
   * piece arrives again while it is the last queued text.
   */
  lemma EveryOrderDelivers(base: nat, stream: seq<byte>, mss: nat, es: seq<Event>)
    requires mss >= 1 && forall t :: t in Texts(es) <==> t in Cut(base, stream, mss)
    requires Gentle(Fresh(base), es)
    requires forall e :: e in es && e.Arrive? ==> e.stray <= base
    ensures Run(Fresh(base), es).Some?
    ensures var f := Run(Fresh(base), es).value;
            f.rx.nxt == base + |stream| && f.rx.queue == [] && f.out + f.rx.Pending() == stream
  {
    hide Gentle, Proper, Permitting, Honest, Run, Cut, Texts, Arrived;
    var s := Fresh(base);
    PiecesArrive(base, stream, mss, es);
    GentleIsFine(s, es, base, stream);
    InOrderDelivery(s, es, base, stream);
    NextIsFirstGap(s, es);
    GapAtEnd(Run(s, es).value.rx, base + |stream|);
  }

  lemma GapAtEnd(r: Rx, end: nat)
    requires Tidy(r) && !Have(r, r.nxt) && forall x: int :: Have(r, x) <==> x < end
    ensures r.nxt == end && r.queue == []
  {
    assert Have(r, end) ==> false;
    if r.queue != [] {
      assert Have(r, r.queue[0].start);
    }
  }

  // ------------------------------------------------------------------------- without retransmission

  predicate Courteous(s: Session, es: seq<Event>)
    requires s.rx.WindowOk()
    decreases |es|
  {
    es == [] ||
    (InWindow(s.rx, es[0])
     && match Step(s, es[0])
        case None => true
        case Some(s') => StepWindowOk(s, es[0]); Courteous(s', es[1..]))
  }

  /** No octet arrives twice. */
  ghost predicate Once(es: seq<Event>) {
    es == []
    || ((es[0].Arrive? ==> forall x :: es[0].text.Has(x) ==> !Arrived(es[1..], x)) && Once(es[1..]))
  }

  lemma {:induction false} LastCovers(q: seq<Text>, x: int)
    requires q != [] && q[|q| - 1].Has(x)
    ensures Covers(q, x)
    decreases |q|
  {
    if |q| > 1 {
      LastCovers(q[1..], x);
    }
  }

  /** Text that is not queued yet does not start inside a queued one. */
  lemma NewIsGentle(r: Rx, s: Text)
    requires Tidy(r) && |s.data| > 0 && forall x :: s.Has(x) ==> !Covers(r.queue, x)
    ensures Reassembled(r, s).Some? ==> !StartsInLast(r.queue, Reassembled(r, s).value)
  {
    if Reassembled(r, s).Some? {
      var t := Reassembled(r, s).value;
      assert s.Has(t.start);
      if StartsInLast(r.queue, t) {
        LastCovers(r.queue, t.start);
      }
    }
  }

  /** What is queued afterwards was queued or has just arrived. */
  lemma QueuedNow(s: Session, e: Event, x: int)
    requires Tidy(s.rx) && InWindow(s.rx, e) && (e.Arrive? ==> Permitted(s.rx, e.text, e.stray))
    requires Step(s, e).Some? && Covers(Step(s, e).value.rx.queue, x)
    ensures Covers(s.rx.queue, x) || (e.Arrive? && e.text.Has(x))
  {
    hide Step, Permitted, Covers;
    StepTidy(s, e);
    var r' := Step(s, e).value.rx;
    assert Have(r', x);
    GapAhead(r');
    assert Have(s.rx, r'.nxt) ==> Have(r', r'.nxt);
    if x < s.rx.nxt {
      assert Ordered(r'.nxt, r'.queue) by {
        SortedExactly(r'.nxt, r'.queue);
      }
      NotBelow(r'.nxt, r'.queue, x);
    }
  }

  /** Runs in which no octet arrives twice repeat nothing that is queued, in whatever order they come. */
  lemma {:induction false} OnceIsGentle(s: Session, es: seq<Event>, base: nat, stream: seq<byte>)
    requires Tidy(s.rx) && Courteous(s, es) && Once(es) && Proper(es, base, stream)
    requires forall x :: Covers(s.rx.queue, x) ==> !Arrived(es, x)
    ensures Gentle(s, es)
    decreases |es|
  {
    hide Step, Permitted, Reassembled, StartsInLast, Tidy, Covers;
    TidyWindow(s.rx);
    if es != [] {
      if es[0].Arrive? {
        assert es[0] in es;
        NewIsGentle(s.rx, es[0].text);
        ProperPermitted(s.rx, es[0].text, es[0].stray);
      }
      StepTidy(s, es[0]);
      var s' := Step(s, es[0]).value;
      forall x | Covers(s'.rx.queue, x)
        ensures !Arrived(es[1..], x)
      {
        QueuedNow(s, es[0], x);
      }
      OnceIsGentle(s', es[1..], base, stream);
    }
  }

  // ------------------------------------------------------------------------ inputs where it fails

  /** Two copies of an early segment, then the missing octet: assert(trh->seq == rcv_nxt) fails. */
  lemma DuplicateAborts()
    ensures var late := Arrive(Text(101, [2]), false, 0);
            Run(Fresh(100), [late, late, Arrive(Text(100, [1]), false, 0)]).None?
  {
    var late := Arrive(Text(101, [2]), false, 0);
    var es := [late, late, Arrive(Text(100, [1]), false, 0)];
    var s0 := Fresh(100);
    var s1 := Step(s0, es[0]).value;
    assert s1.rx.queue == [Text(101, [2])];
    var s2 := Step(s1, es[1]).value;
    assert Place(0, s1.rx.queue, Text(101, [2])) == Put([Text(101, [2]), Text(101, [2])], 101) by {
      PlaceAtEnd(101, 0, s1.rx.queue, Text(101, [2]));
      assert s1.rx.queue + [Text(101, [2])] == [Text(101, [2]), Text(101, [2])];
    }
    var t := Text(100, [1]);
    assert s2.rx.queue == [Text(101, [2]), Text(101, [2])];
    assert Place(0, s2.rx.queue, t) == Put([t] + s2.rx.queue, 100);
    var d0 := s2.rx.(queue := [t] + s2.rx.queue);
    var d1 := WriteBuf(d0, t.data).(queue := s2.rx.queue);
    var d2 := WriteBuf(d1, [2]).(queue := s2.rx.queue[1..]);
    assert Drain(d2, 2) == None;
    assert d0.queue[1..] == s2.rx.queue;
    assert Drain(d1, 1) == None && Drain(d0, 0) == None;
    assert Step(s2, es[2]) == None;
    assert Run(s2, es[2..]) == None && Run(s1, es[1..]) == None by {
      assert es[1..][1..] == es[2..] && es[2..][0] == es[2];
    }
  }

  /** The number read through the list head drops a segment that is neither delivered nor queued. */
  lemma StrayDrops()
    ensures var es := [Arrive(Text(13, [9]), false, 12), Arrive(Text(11, [1]), false, 12)];
            Run(Fresh(10), es).Some? && !Have(Run(Fresh(10), es).value.rx, 11)
  {
    var es := [Arrive(Text(13, [9]), false, 12), Arrive(Text(11, [1]), false, 12)];
    var s1 := Step(Fresh(10), es[0]).value;
    assert s1.rx.queue == [Text(13, [9])];
    assert Place(12, s1.rx.queue, Text(11, [1])) == Skip(s1.rx.queue, 11);
    assert Step(s1, es[1]) == Some(Session(s1.rx.(ackNow := true), []));
    assert es[1..] == [es[1]] && es[1..][1..] == [];
    assert Run(s1, es[1..]) == Step(s1, es[1]);
  }

  /** A PUSH without text behind a queued text: when the gap before it closes, delivery stops for good. */
  lemma EmptyPushBlocks()
    ensures var es := [Arrive(Text(101, [9]), false, 0), Arrive(Text(102, []), true, 0), Arrive(Text(100, [1]), false, 0)];
            Run(Fresh(100), es).Some? && Stuck(Run(Fresh(100), es).value.rx)
  {
    var a, b, c := Arrive(Text(101, [9]), false, 0), Arrive(Text(102, []), true, 0), Arrive(Text(100, [1]), false, 0);
    var s1 := Step(Fresh(100), a).value;
    assert s1 == Session(Fresh(100).rx.(queue := [a.text], ackNow := true), []);
    var s2 := Session(s1.rx.(queue := [a.text, b.text]), []);
    assert Step(s1, b) == Some(s2) by {
      BlankBehind(s1, s2);
    }
    assert Step(s2, c).Some? && Stuck(Step(s2, c).value.rx) by {
      GapCloses(s2.rx);
    }
    var es := [a, b, c];
    assert es[1..] == [b, c] && [b, c][1..] == [c] && [c][1..] == [];
    assert Run(s2, [c]) == Step(s2, c);
    assert Run(s1, [b, c]) == Run(s2, [c]);
  }

  lemma BlankBehind(s1: Session, s2: Session)
    requires s1 == Session(Fresh(100).rx.(queue := [Text(101, [9])], ackNow := true), [])
    requires s2 == Session(s1.rx.(queue := [Text(101, [9]), Text(102, [])]), [])
    ensures Step(s1, Arrive(Text(102, []), true, 0)) == Some(s2)
  {
    var q, t := [Text(101, [9])], Text(102, []);
    assert q[1..] == [] && [q[0]] + [t] == s2.rx.queue;
    assert Place(102, [], t) == Put([t], 102) && Place(0, q, t) == Put(s2.rx.queue, 102);
  }

  lemma GapCloses(r: Rx)
    requires r == Fresh(100).rx.(queue := [Text(101, [9]), Text(102, [])], ackNow := true)
    ensures var o := RecvText(r, Text(100, [1]), false, 0); o.Fine? && Stuck(o.rx)
  {
    var q, t := r.queue, Text(100, [1]);
    assert Absorb(t, q) == Put([t] + q, 100);
    assert Place(0, q, t) == Put([t] + q, 100);
    var d0 := r.(queue := [t] + q);
    var d1 := WriteBuf(d0, t.data).(queue := q);
    var d2 := WriteBuf(d1, [9]).(queue := [Text(102, [])]);
    assert d0.queue[1..] == q && q[1..] == [Text(102, [])];
    assert d2.nxt == 102 && Drain(d2, 2) == Some((WriteBuf(d2, []), 2));
    assert Drain(d1, 1) == Drain(d2, 2);
    assert Drain(d0, 0) == Drain(d1, 1);
  }
}
