/** What tcp_recv_text keeps: in-order delivery, and a reassembly queue that loses nothing. */
module TcpReceiveProofs {
  import opened Wrappers
  import opened Bytes
  import opened TcpReceive

  // -------------------------------------------------------------------------- ordered queues

  lemma {:induction false} OrderedWeaken(lo: nat, lo': nat, q: seq<Text>)
    requires Ordered(lo, q) && lo' <= lo
    ensures Ordered(lo', q)
  {
  }

  lemma {:induction false} NotBelow(lo: nat, q: seq<Text>, x: int)
    requires Ordered(lo, q) && x < lo
    ensures !Covers(q, x)
    decreases |q|
  {
    if q != [] {
      NotBelow(q[0].End(), q[1..], x);
    }
  }

  lemma {:induction false} BlankAbove(lo: nat, q: seq<Text>, e: nat)
    requires Ordered(lo, q) && Blank(q, e)
    ensures lo <= e
    decreases |q|
  {
    if q[0] != Text(e, []) {
      BlankAbove(q[0].End(), q[1..], e);
    }
  }

  /** A sorted queue is an ordered one without blanks. */
  lemma {:induction false} SortedExactly(lo: nat, q: seq<Text>)
    ensures Sorted(lo, q) <==> Ordered(lo, q) && NoBlanks(q)
    decreases |q|
  {
    if q != [] {
      SortedExactly(q[0].End(), q[1..]);
      if q[0].data == [] {
        assert q[0] == Text(q[0].start, []) && !Sorted(lo, q);
        assert Blank(q, q[0].start);
      } else {
        assert forall e :: Blank(q, e) <==> Blank(q[1..], e);
      }
    }
  }

  // ------------------------------------------------------------------------- placing a segment

  /** Deleting covered texts and trimming the tail keeps the queue ordered. */
  lemma {:induction false} AbsorbOrdered(t: Text, q: seq<Text>, lo: nat)
    requires Ordered(lo, q) && (q != [] ==> t.start <= q[0].start)
    ensures !Absorb(t, q).Wrap? && Ordered(t.start, Absorb(t, q).queue)
    decreases |q|
  {
    if q != [] && q[0].End() <= t.End() {
      AbsorbOrdered(t, q[1..], q[0].End());
    } else if q != [] {
      assert forall u :: ([u] + q)[1..] == q;
    }
  }

  /** ... and adds exactly the octets of the segment. */
  lemma {:induction false} AbsorbCovers(t: Text, q: seq<Text>, lo: nat, x: int)
    requires Ordered(lo, q) && (q != [] ==> t.start <= q[0].start)
    ensures !Absorb(t, q).Wrap?
    ensures Covers(Absorb(t, q).queue, x) <==> Covers(q, x) || t.Has(x)
    decreases |q|
  {
    if q != [] && q[0].End() <= t.End() {
      AbsorbCovers(t, q[1..], q[0].End(), x);
    } else if q != [] {
      assert forall u :: ([u] + q)[1..] == q;
    }
  }

  /** ... and deletes exactly the blanks that the segment reaches. */
  lemma {:induction false} AbsorbBlank(t: Text, q: seq<Text>, lo: nat, e: nat)
    requires Ordered(lo, q) && (q != [] ==> t.start <= q[0].start)
    ensures !Absorb(t, q).Wrap?
    ensures Blank(Absorb(t, q).queue, e) <==> (Blank(q, e) && t.End() < e) || t == Text(e, [])
    decreases |q|
  {
    if q == [] {
    } else if q[0].End() <= t.End() {
      AbsorbBlank(t, q[1..], q[0].End(), e);
    } else {
      assert forall u :: ([u] + q)[1..] == q;
      if Blank(q[1..], e) {
        BlankAbove(q[0].End(), q[1..], e);
      }
    }
  }

  /** ... and leaves every text a slice of the stream. */
  lemma {:induction false} AbsorbSlices(t: Text, q: seq<Text>, base: nat, stream: seq<byte>)
    requires !Absorb(t, q).Wrap? && Slice(t, base, stream) && Slices(q, base, stream)
    ensures Slices(Absorb(t, q).queue, base, stream)
    decreases |q|
  {
    if q != [] && q[0].End() <= t.End() {
      AbsorbSlices(t, q[1..], base, stream);
    } else if q != [] {
      assert forall u :: ([u] + q)[1..] == q;
    }
  }

  lemma {:induction false} AbsorbUpto(t: Text, q: seq<Text>, hi: nat)
    requires t.End() <= hi && Upto(q, hi) && !Absorb(t, q).Wrap?
    ensures Upto(Absorb(t, q).queue, hi)
    decreases |q|
  {
    if q != [] && q[0].End() <= t.End() {
      AbsorbUpto(t, q[1..], hi);
    } else if q != [] {
      assert forall u :: ([u] + q)[1..] == q;
    }
  }

  /** Whatever the order: no octet comes out of nowhere. */
  lemma {:induction false} AbsorbNothingNew(t: Text, q: seq<Text>, x: int)
    requires !Absorb(t, q).Wrap? && Covers(Absorb(t, q).queue, x)
    ensures Covers(q, x) || t.Has(x)
    decreases |q|
  {
    if q != [] && q[0].End() <= t.End() {
      AbsorbNothingNew(t, q[1..], x);
    } else if q != [] {
      assert forall u :: ([u] + q)[1..] == q;
    }
  }

  /**
   * What the search needs, at the place where the text before ends at `prevEnd`: nothing queued
   * before it reaches the segment, and what is left of it does not start beyond the next text.
   */
  predicate Placeable(lo: nat, prevEnd: nat, q: seq<Text>, s: Text) {
    && Ordered(lo, q) && !StartsInLast(q, s)
    && (lo <= s.start || (q != [] && lo <= prevEnd))
    && (Front(q, s) ==> prevEnd <= q[0].start || s.End() <= prevEnd)
  }

  lemma PlaceableNext(lo: nat, prevEnd: nat, q: seq<Text>, s: Text)
    requires q != [] && q[0].start <= s.start && Placeable(lo, prevEnd, q, s)
    ensures Placeable(q[0].End(), q[0].End(), q[1..], s)
  {
    if |q| > 1 {
      assert q[1..][|q| - 2] == q[|q| - 1];
    }
  }

  lemma {:induction false} PlaceOrdered(lo: nat, prevEnd: nat, q: seq<Text>, s: Text)
    requires Placeable(lo, prevEnd, q, s)
    ensures !Place(prevEnd, q, s).Wrap? && Ordered(lo, Place(prevEnd, q, s).queue)
    decreases |q|
  {
    if q == [] {
    } else if Front(q, s) {
      match TrimHead(s, prevEnd) {
        case None =>
        case Some(t) =>
          AbsorbOrdered(t, q, lo);
          OrderedWeaken(t.start, lo, Absorb(t, q).queue);
      }
    } else {
      PlaceableNext(lo, prevEnd, q, s);
      PlaceOrdered(q[0].End(), q[0].End(), q[1..], s);
      BehindTail(q[0], Place(q[0].End(), q[1..], s));
    }
  }

  lemma BehindTail(head: Text, p: Placed)
    requires !p.Wrap?
    ensures Behind(head, p).queue[0] == head && Behind(head, p).queue[1..] == p.queue
  {
  }

  /** Exactly the octets of the segment are added, except below the stray number. */
  lemma {:induction false} PlaceCovers(lo: nat, prevEnd: nat, q: seq<Text>, s: Text, x: int)
    requires Placeable(lo, prevEnd, q, s)
    ensures !Place(prevEnd, q, s).Wrap?
    ensures Covers(Place(prevEnd, q, s).queue, x) <==> Covers(q, x) || (s.Has(x) && (Front(q, s) ==> prevEnd <= x))
    decreases |q|
  {
    if q == [] {
    } else if Front(q, s) {
      match TrimHead(s, prevEnd) {
        case None =>
        case Some(t) => AbsorbCovers(t, q, lo, x);
      }
    } else {
      PlaceableNext(lo, prevEnd, q, s);
      PlaceCovers(q[0].End(), q[0].End(), q[1..], s, x);
      BehindTail(q[0], Place(q[0].End(), q[1..], s));
    }
  }

  /** The search trims the segment to nothing. */
  predicate Vanishes(prevEnd: nat, q: seq<Text>, s: Text)
    decreases |q|
  {
    q != [] && (if Front(q, s) then TrimHead(s, prevEnd).None? else Vanishes(q[0].End(), q[1..], s))
  }

  lemma {:induction false} VanishesExactly(lo: nat, prevEnd: nat, q: seq<Text>, s: Text)
    requires Ordered(lo, q)
    ensures Vanishes(prevEnd, q, s) <==> Spent(q, s, prevEnd)
    decreases |q|
  {
    if q != [] && !Front(q, s) {
      var rest := q[1..];
      VanishesExactly(q[0].End(), q[0].End(), rest, s);
      if Front(rest, s) {
        assert Spent(rest, s, q[0].End()) <==> q[0].Has(s.start) && s.End() <= q[0].End();
        OnlyHead(q, s);
      } else {
        SpentTail(q, s, prevEnd);
      }
    }
  }

  /** The segment starts below the second text: only the first can hold it. */
  lemma OnlyHead(q: seq<Text>, s: Text)
    requires |q| > 1 && q[0].start <= s.start < q[1].start && Ordered(q[0].start, q)
    ensures (exists i :: 0 <= i < |q| - 1 && q[i].Has(s.start) && s.End() <= q[i].End())
            <==> q[0].Has(s.start) && s.End() <= q[0].End()
  {
    forall i | 0 < i < |q|
      ensures s.start < q[i].start
    {
      StartsRise(q[0].End(), q[1..], i - 1);
      assert q[1..][i - 1] == q[i];
    }
  }

  lemma {:induction false} StartsRise(lo: nat, q: seq<Text>, i: nat)
    requires Ordered(lo, q) && i < |q|
    ensures q[0].start <= q[i].start
    decreases i
  {
    if i > 0 {
      StartsRise(q[0].End(), q[1..], i - 1);
    }
  }

  lemma SpentTail(q: seq<Text>, s: Text, stray: nat)
    requires q != [] && Ordered(q[0].start, q) && !Front(q, s) && !Front(q[1..], s)
    ensures Spent(q, s, stray) <==> Spent(q[1..], s, q[0].End())
  {
    var rest := q[1..];
    if rest != [] {
      assert !q[0].Has(s.start);
    }
    if i :| 0 <= i < |q| - 1 && q[i].Has(s.start) && s.End() <= q[i].End() {
      assert rest[i - 1] == q[i];
    }
    if i :| 0 <= i < |rest| - 1 && rest[i].Has(s.start) && s.End() <= rest[i].End() {
      assert rest[i] == q[i + 1];
    }
  }

  /** A segment deletes the blanks it passes over, unless it vanishes, and may be a blank itself. */
  lemma {:induction false} PlaceBlank(lo: nat, prevEnd: nat, q: seq<Text>, s: Text, e: nat)
    requires Placeable(lo, prevEnd, q, s)
    ensures !Place(prevEnd, q, s).Wrap?
    ensures Blank(Place(prevEnd, q, s).queue, e)
            <==> (Blank(q, e) && (Vanishes(prevEnd, q, s) || !(s.start < e <= s.End())))
                 || (!Vanishes(prevEnd, q, s) && s == Text(e, []))
    decreases |q|
  {
    if q == [] {
    } else if Front(q, s) {
      if Blank(q, e) {
        BlankAbove(q[0].start, q, e);
      }
      match TrimHead(s, prevEnd) {
        case None =>
        case Some(t) => AbsorbBlank(t, q, lo, e);
      }
    } else {
      PlaceableNext(lo, prevEnd, q, s);
      PlaceBlank(q[0].End(), q[0].End(), q[1..], s, e);
      BehindTail(q[0], Place(q[0].End(), q[1..], s));
    }
  }

  lemma {:induction false} PlaceSlices(prevEnd: nat, q: seq<Text>, s: Text, base: nat, stream: seq<byte>)
    requires !Place(prevEnd, q, s).Wrap? && Slice(s, base, stream) && Slices(q, base, stream)
    ensures Slices(Place(prevEnd, q, s).queue, base, stream)
    decreases |q|
  {
    if q == [] {
    } else if Front(q, s) {
      if TrimHead(s, prevEnd).Some? {
        AbsorbSlices(TrimHead(s, prevEnd).value, q, base, stream);
      }
    } else {
      PlaceSlices(q[0].End(), q[1..], s, base, stream);
      BehindTail(q[0], Place(q[0].End(), q[1..], s));
    }
  }

  lemma {:induction false} PlaceUpto(prevEnd: nat, q: seq<Text>, s: Text, hi: nat)
    requires s.End() <= hi && Upto(q, hi) && !Place(prevEnd, q, s).Wrap?
    ensures Upto(Place(prevEnd, q, s).queue, hi)
    decreases |q|
  {
    if q == [] {
    } else if Front(q, s) {
      if TrimHead(s, prevEnd).Some? {
        AbsorbUpto(TrimHead(s, prevEnd).value, q, hi);
      }
    } else {
      PlaceUpto(q[0].End(), q[1..], s, hi);
      BehindTail(q[0], Place(q[0].End(), q[1..], s));
    }
  }

  /** A segment that is skipped leaves something deliverable at the head only if it was there. */
  lemma SkipHead(prevEnd: nat, q: seq<Text>, s: Text, lo: nat)
    requires Ordered(lo, q) && Place(prevEnd, q, s).Skip?
    ensures var q' := Place(prevEnd, q, s).queue;
            q != [] && q' != [] && (if Front(q, s) then s.start < q'[0].start else q'[0] == q[0])
  {
    if Front(q, s) && TrimHead(s, prevEnd).Some? {
      AbsorbSkipHead(TrimHead(s, prevEnd).value, q, lo);
    }
  }

  lemma {:induction false} AbsorbSkipHead(t: Text, q: seq<Text>, lo: nat)
    requires Ordered(lo, q) && Absorb(t, q).Skip?
    ensures q != [] && Absorb(t, q).queue != [] && q[0].start <= Absorb(t, q).queue[0].start
    decreases |q|
  {
    if q[0].End() <= t.End() {
      AbsorbSkipHead(t, q[1..], q[0].End());
    }
  }

  // ------------------------------------------------------------------------------- draining

  /** tcp_write_buf extends what the user will read by the octets that follow in the stream. */
  lemma WriteStreams(r: Rx, t: Text, base: nat, stream: seq<byte>, out: seq<byte>)
    requires r.Writable() && base <= r.nxt && Slice(t, base, stream) && t.start == r.nxt
    requires out + r.Pending() == stream[..r.nxt - base]
    ensures var r' := WriteBuf(r, t.data);
            out + r'.Pending() == stream[..r'.nxt - base]
  {
    var n := WriteLen(r, t.data);
    var r' := WriteBuf(r, t.data);
    Assoc(out, r.Pending(), t.data[..n]);
    assert stream[..r.nxt - base] + t.data[..n] == stream[..r'.nxt - base];
  }

  /** Draining never trips the assertion and keeps the stream invariant, even when the ring fills. */
  lemma {:induction false} DrainStreams(r: Rx, got: nat, base: nat, stream: seq<byte>, out: seq<byte>)
    requires r.Writable() && Streams(r, base, stream, out)
    ensures Drain(r, got).Some? && Streams(Drain(r, got).value.0, base, stream, out)
    decreases |r.queue|
  {
    if r.queue != [] && r.queue[0].start == r.nxt {
      var n := WriteLen(r, r.queue[0].data);
      DrainOneStreams(r, base, stream, out);
      if n > 0 {
        hide Streams;
        DrainStreams(WriteBuf(r, r.queue[0].data).(queue := r.queue[1..]), got + n, base, stream, out);
      }
    }
  }

  lemma DrainOneStreams(r: Rx, base: nat, stream: seq<byte>, out: seq<byte>)
    requires r.Writable() && Streams(r, base, stream, out)
    requires r.queue != [] && r.queue[0].start == r.nxt
    ensures var w := WriteBuf(r, r.queue[0].data);
            Streams(w.(queue := r.queue[1..]), base, stream, out) && (w.nxt == r.nxt ==> Streams(w, base, stream, out))
  {
    hide Slice;
    var t := r.queue[0];
    WriteStreams(r, t, base, stream, out);
    var w := WriteBuf(r, t.data);
    OrderedWeaken(t.End(), w.nxt, r.queue[1..]);
    assert w.nxt <= t.End() <= base + |stream| by {
      SliceFits(t, base, stream);
    }
  }

  lemma SliceFits(t: Text, base: nat, stream: seq<byte>)
    requires Slice(t, base, stream)
    ensures base <= t.start && t.End() <= base + |stream|
  {
  }

  /** Order inside the queue, confinement to the advertised window, and delivery up to a gap or a blank. */
  predicate Orderly(r: Rx) {
    r.WindowOk() && Ordered(r.nxt, r.queue) && Upto(r.queue, r.nxt + r.wnd) && (Drained(r) || Stuck(r))
  }

  /** The same without blanks. */
  predicate Tidy(r: Rx) {
    r.WindowOk() && Sorted(r.nxt, r.queue) && Upto(r.queue, r.nxt + r.wnd) && Drained(r)
  }

  lemma TidyExactly(r: Rx)
    ensures Tidy(r) <==> Orderly(r) && NoBlanks(r.queue)
  {
    SortedExactly(r.nxt, r.queue);
    if Stuck(r) {
      assert Blank(r.queue, r.nxt);
    }
  }

  /** What a step adds: nothing is lost, the right edge of the window stays. */
  ghost predicate Gains(r: Rx, r': Rx, t: Text, from: nat) {
    && r'.nxt + r'.wnd == r.nxt + r.wnd
    && forall x :: Have(r', x) <==> Have(r, x) || (t.Has(x) && from <= x)
  }

  /** Inside the window draining loses nothing and stops only at a gap or a blank. */
  lemma {:induction false} DrainExact(r: Rx, got: nat)
    requires r.Writable() && Ordered(r.nxt, r.queue) && Upto(r.queue, r.nxt + r.wnd)
    ensures Drain(r, got).Some?
    ensures var r' := Drain(r, got).value.0;
            && Orderly(r') && r'.nxt + r'.wnd == r.nxt + r.wnd
            && (forall x :: Have(r', x) <==> Have(r, x))
            && (forall e :: Blank(r'.queue, e) <==> Blank(r.queue, e))
    decreases |r.queue|
  {
    if r.queue != [] && r.queue[0].start == r.nxt && r.queue[0].data != [] {
      DrainOneExact(r, got);
      DrainExact(WriteBuf(r, r.queue[0].data).(queue := r.queue[1..]), got + |r.queue[0].data|);
    }
  }

  lemma DrainOneExact(r: Rx, got: nat)
    requires r.Writable() && Ordered(r.nxt, r.queue) && Upto(r.queue, r.nxt + r.wnd)
    requires r.queue != [] && r.queue[0].start == r.nxt && r.queue[0].data != []
    ensures var d := WriteBuf(r, r.queue[0].data).(queue := r.queue[1..]);
            && d.nxt == r.queue[0].End() && d.nxt + d.wnd == r.nxt + r.wnd && d.Writable()
            && Drain(r, got) == Drain(d, got + |r.queue[0].data|)
            && (forall x :: Have(d, x) <==> Have(r, x))
            && (forall e :: Blank(d.queue, e) <==> Blank(r.queue, e))
  {
  }

  /** Whatever the queue: no octet comes out of nowhere. */
  lemma {:induction false} DrainNothingNew(r: Rx, got: nat, x: int)
    requires r.Writable() && Drain(r, got).Some? && Have(Drain(r, got).value.0, x)
    ensures Have(r, x)
    decreases |r.queue|
  {
    if r.queue != [] && r.queue[0].start == r.nxt && WriteLen(r, r.queue[0].data) > 0 {
      var n := WriteLen(r, r.queue[0].data);
      DrainNothingNew(WriteBuf(r, r.queue[0].data).(queue := r.queue[1..]), got + n, x);
    }
  }

  // ------------------------------------------------------------------------------- one segment

  lemma TrimSlice(s: Text, n: nat, base: nat, stream: seq<byte>)
    requires Slice(s, base, stream) && TrimHead(s, n).Some?
    ensures Slice(TrimHead(s, n).value, base, stream)
  {
  }

  lemma SafePlaceable(lo: nat, q: seq<Text>, t: Text, stray: nat)
    requires Ordered(lo, q) && lo <= t.start && Safe(q, t, stray)
    ensures Placeable(lo, stray, q, t)
  {
  }

  lemma ReassStreams(
    r: Rx, t: Text, psh: bool, stray: nat, base: nat, stream: seq<byte>, out: seq<byte>)
    requires r.Writable() && Streams(r, base, stream, out) && Slice(t, base, stream)
    requires r.nxt <= t.start && Safe(r.queue, t, stray)
    ensures Reass(r, t, psh, stray).Fine?
    ensures Streams(Reass(r, t, psh, stray).rx, base, stream, out)
  {
    hide Place, Drain, Safe, Placeable;
    SafePlaceable(r.nxt, r.queue, t, stray);
    PlaceOrdered(r.nxt, stray, r.queue, t);
    PlaceSlices(stray, r.queue, t, base, stream);
    var p := Place(stray, r.queue, t);
    if p.Put? {
      DrainStreams(r.(queue := p.queue), 0, base, stream, out);
    }
  }

  /** Every slice of the stream that keeps the queue ordered keeps in-order delivery; no assertion fails. */
  lemma RecvTextStreams(
    r: Rx, s: Text, psh: bool, stray: nat, base: nat, stream: seq<byte>, out: seq<byte>)
    requires Streams(r, base, stream, out) && Slice(s, base, stream) && Orderable(r, s, stray)
    ensures RecvText(r, s, psh, stray).Fine?
    ensures Streams(RecvText(r, s, psh, stray).rx, base, stream, out)
  {
    hide Reass, Safe;
    if r.wnd > 0 && TrimHead(s, r.nxt).Some? {
      var t := TrimHead(s, r.nxt).value;
      TrimSlice(s, r.nxt, base, stream);
      if r.nxt == t.start && r.queue == [] {
        WriteStreams(r, t, base, stream, out);
      } else {
        ReassStreams(r, t, psh, stray, base, stream, out);
      }
    }
  }

  /** The number below which a segment in front of the queue loses octets. */
  function Cutoff(q: seq<Text>, t: Text, stray: nat): nat {
    if Front(q, t) then stray else 0
  }

  /** The segment deletes the blank at `e`. */
  predicate Sweeps(q: seq<Text>, t: Text, stray: nat, e: nat) {
    t.start < e <= t.End() && !Spent(q, t, stray)
  }

  /** The blank at `e` is queued afterwards. */
  predicate BlankAfter(q: seq<Text>, t: Text, stray: nat, e: nat) {
    (Blank(q, e) && !Sweeps(q, t, stray, e)) || (t == Text(e, []) && !Spent(q, t, stray))
  }

  /** The queue after placing a segment, octet by octet and blank by blank. */
  lemma PlaceExact(r: Rx, t: Text, stray: nat)
    requires Orderly(r) && r.nxt <= t.start && t.End() <= r.nxt + r.wnd && Safe(r.queue, t, stray)
    ensures var p := Place(stray, r.queue, t);
            && !p.Wrap? && Ordered(r.nxt, p.queue) && Upto(p.queue, r.nxt + r.wnd)
            && (forall x :: Covers(p.queue, x)
                  <==> Covers(r.queue, x) || (t.Has(x) && Cutoff(r.queue, t, stray) <= x))
            && (forall e :: Blank(p.queue, e) <==> BlankAfter(r.queue, t, stray, e))
            && (p.Skip? ==> Orderly(r.(queue := p.queue)))
  {
    hide Place, Safe, Placeable, Spent, Covers, Blank, Upto;
    SafePlaceable(r.nxt, r.queue, t, stray);
    PlaceOrdered(r.nxt, stray, r.queue, t);
    PlaceUpto(stray, r.queue, t, r.nxt + r.wnd);
    VanishesExactly(r.nxt, stray, r.queue, t);
    var p := Place(stray, r.queue, t);
    forall x
      ensures Covers(p.queue, x) <==> Covers(r.queue, x) || (t.Has(x) && Cutoff(r.queue, t, stray) <= x)
    {
      PlaceCovers(r.nxt, stray, r.queue, t, x);
    }
    forall e
      ensures Blank(p.queue, e) <==> BlankAfter(r.queue, t, stray, e)
    {
      PlaceBlank(r.nxt, stray, r.queue, t, e);
    }
    if p.Skip? {
      SkipHead(stray, r.queue, t, r.nxt);
    }
  }

  /** tcp_segment_reass inside the window, for every segment that keeps the queue ordered. */
  lemma ReassExact(r: Rx, t: Text, psh: bool, stray: nat)
    requires r.Writable() && Orderly(r) && r.nxt <= t.start && t.End() <= r.nxt + r.wnd
    requires Safe(r.queue, t, stray)
    ensures Reass(r, t, psh, stray).Fine?
    ensures var r' := Reass(r, t, psh, stray).rx;
            && Orderly(r') && Gains(r, r', t, Cutoff(r.queue, t, stray))
            && (forall e :: Blank(r'.queue, e) <==> BlankAfter(r.queue, t, stray, e))
  {
    hide Place, Drain, Safe, BlankAfter, Covers, Blank, Upto, Ordered, Cutoff;
    PlaceExact(r, t, stray);
    var p := Place(stray, r.queue, t);
    var d := r.(queue := p.queue);
    assert forall x :: Have(d, x) <==> Have(r, x) || (t.Has(x) && Cutoff(r.queue, t, stray) <= x);
    if p.Put? {
      DrainExact(d, 0);
    }
  }

  /**
   * tcp_recv_text inside the window, for every segment that keeps the queue ordered: what is
   * delivered or queued grows by the segment (above the stray number, if the list head is read),
   * blanks are queued and deleted exactly as BlankAfter says, delivery goes up to a gap or a blank.
   */
  lemma RecvTextExact(r: Rx, s: Text, psh: bool, stray: nat)
    requires Orderly(r) && s.End() <= r.nxt + r.wnd && Orderable(r, s, stray)
    ensures RecvText(r, s, psh, stray).Fine?
    ensures var r' := RecvText(r, s, psh, stray).rx;
            && Orderly(r')
            && match Reassembled(r, s)
               case None => Gains(r, r', s, 0) && r'.queue == r.queue
               case Some(t) =>
                 && Gains(r, r', s, Cutoff(r.queue, t, stray))
                 && (forall e :: Blank(r'.queue, e) <==> BlankAfter(r.queue, t, stray, e))
  {
    hide Reass, Safe, BlankAfter, Blank, Upto, Ordered, Cutoff, Stuck;
    if r.wnd > 0 && TrimHead(s, r.nxt).Some? {
      var t := TrimHead(s, r.nxt).value;
      assert forall x :: x < r.nxt || (s.Has(x) <==> t.Has(x));
      if r.nxt == t.start && r.queue == [] {
        NothingQueued(r);
        NothingQueued(WriteBuf(r, t.data));
      } else {
        ReassExact(r, t, psh, stray);
        var o := Reass(r, t, psh, stray).rx;
        OrderlyAcknowledged(o);
        assert Gains(r, o.(ackNow := true), s, Cutoff(r.queue, t, stray));
      }
    }
  }

  lemma OrderlyAcknowledged(r: Rx)
    ensures Orderly(r) <==> Orderly(r.(ackNow := true))
    ensures Tidy(r) <==> Tidy(r.(ackNow := true))
    ensures forall x :: Have(r, x) <==> Have(r.(ackNow := true), x)
  {
  }

  lemma NothingQueued(r: Rx)
    requires r.queue == []
    ensures Ordered(r.nxt, r.queue) && Upto(r.queue, r.nxt + r.wnd) && !Stuck(r)
  {
  }

  // ---------------------------------------------------- nothing lost, if and only if permitted

  /** Order and delivery kept, nothing lost, nothing invented. */
  ghost predicate Kept(r: Rx, s: Text, o: Outcome) {
    o.Fine? && Tidy(o.rx) && forall x :: Have(o.rx, x) <==> Have(r, x) || s.Has(x)
  }

  lemma SoundIsSafe(q: seq<Text>, t: Text, stray: nat, lo: nat)
    requires Sound(q, t, stray) && Ordered(lo, q)
    ensures Safe(q, t, stray)
  {
    if t.data == [] && !Front(q, t) {
      var i :| 0 <= i < |q| - 1 && q[i].Has(t.start) && t.End() <= q[i].End();
      EndsRise(lo, q, i, |q| - 1);
    }
  }

  lemma {:induction false} EndsRise(lo: nat, q: seq<Text>, i: nat, j: nat)
    requires Ordered(lo, q) && i < j < |q|
    ensures q[i].End() <= q[j].start
    decreases i
  {
    if i == 0 {
      StartsRise(q[0].End(), q[1..], j - 1);
    } else {
      EndsRise(q[0].End(), q[1..], i - 1, j - 1);
    }
  }

  lemma SoundKeeps(r: Rx, t: Text, psh: bool, stray: nat)
    requires r.Writable() && Tidy(r) && r.nxt <= t.start && t.End() <= r.nxt + r.wnd
    requires Sound(r.queue, t, stray)
    ensures Kept(r, t, Reass(r, t, psh, stray))
  {
    hide Reass, Tidy, Orderly, Spent;
    TidyExactly(r);
    assert Ordered(r.nxt, r.queue) by {
      OrderlyIsOrdered(r);
    }
    SoundIsSafe(r.queue, t, stray, r.nxt);
    ReassExact(r, t, psh, stray);
    var r' := Reass(r, t, psh, stray).rx;
    assert NoBlanks(r'.queue) by {
      assert forall e :: !BlankAfter(r.queue, t, stray, e);
    }
    TidyExactly(r');
    assert forall x :: t.Has(x) ==> Cutoff(r.queue, t, stray) <= x;
  }

  lemma OrderlyIsOrdered(r: Rx)
    requires Orderly(r)
    ensures Ordered(r.nxt, r.queue)
  {
  }

  /** Past the last queued text a segment is appended untrimmed. */
  lemma {:induction false} PlaceAtEnd(lo: nat, prevEnd: nat, q: seq<Text>, s: Text)
    requires Sorted(lo, q) && StartsInLast(q, s)
    ensures Place(prevEnd, q, s) == Put(q + [s], s.start) && !Sorted(lo, q + [s])
    decreases |q|
  {
    SortedExactly(lo, q);
    StartsRise(lo, q, |q| - 1);
    if |q| > 1 {
      PlaceAtEnd(q[0].End(), q[0].End(), q[1..], s);
      assert (q + [s])[1..] == q[1..] + [s];
    } else {
      assert q[1..] == [] && q + [s] == [q[0]] + [s];
      assert (q + [s])[1..] == [s];
    }
  }

  lemma LastBreaks(r: Rx, t: Text, psh: bool, stray: nat)
    requires r.Writable() && Tidy(r) && StartsInLast(r.queue, t)
    ensures !Kept(r, t, Reass(r, t, psh, stray))
  {
    PlaceAtEnd(r.nxt, stray, r.queue, t);
  }

  /** The octet at the start of the segment is lost. */
  lemma StrayLoses(r: Rx, t: Text, psh: bool, stray: nat)
    requires r.Writable() && Tidy(r) && r.nxt <= t.start && Front(r.queue, t)
    requires t.data != [] && t.start < stray
    ensures !Kept(r, t, Reass(r, t, psh, stray))
  {
    hide Drain, Sorted;
    var o := Reass(r, t, psh, stray);
    assert !Covers(r.queue, t.start) by {
      SortedExactly(r.nxt, r.queue);
      NotBelow(r.queue[0].start, r.queue, t.start);
    }
    if o.Fine? && Have(o.rx, t.start) {
      var p := Place(stray, r.queue, t);
      if p.Put? {
        DrainNothingNew(r.(queue := p.queue), 0, t.start);
      }
      if TrimHead(t, stray).Some? {
        AbsorbNothingNew(TrimHead(t, stray).value, r.queue, t.start);
      }
    }
    assert t.Has(t.start);
  }

  lemma BlankQueued(r: Rx, t: Text, psh: bool, stray: nat)
    requires r.Writable() && Tidy(r) && r.nxt <= t.start <= r.nxt + r.wnd
    requires t.data == [] && !Spent(r.queue, t, stray) && !StartsInLast(r.queue, t)
    ensures !Kept(r, t, Reass(r, t, psh, stray))
  {
    hide Reass, Tidy, Orderly, Spent;
    TidyExactly(r);
    assert Safe(r.queue, t, stray) by {
      FrontNotSpent(r.queue, t, stray);
    }
    ReassExact(r, t, psh, stray);
    var r' := Reass(r, t, psh, stray).rx;
    assert BlankAfter(r.queue, t, stray, t.start);
    assert !NoBlanks(r'.queue);
    TidyExactly(r');
  }

  lemma FrontNotSpent(q: seq<Text>, t: Text, stray: nat)
    requires t.data == [] && !Spent(q, t, stray)
    ensures Front(q, t) ==> stray <= q[0].start
  {
  }

  /**
   * For every segment inside the window, text or no text: tcp_segment_reass keeps the queue in
   * order, loses nothing and invents nothing if and only if the segment is sound.
   */
  lemma ReassKeepsExactly(r: Rx, t: Text, psh: bool, stray: nat)
    requires r.Writable() && Tidy(r) && r.nxt <= t.start && t.End() <= r.nxt + r.wnd
    ensures Kept(r, t, Reass(r, t, psh, stray)) <==> Sound(r.queue, t, stray)
  {
    hide Reass, Tidy, Kept, Spent;
    if Sound(r.queue, t, stray) {
      SoundKeeps(r, t, psh, stray);
    } else if StartsInLast(r.queue, t) {
      LastBreaks(r, t, psh, stray);
    } else if t.data == [] {
      BlankQueued(r, t, psh, stray);
    } else {
      StrayLoses(r, t, psh, stray);
    }
  }

  /** The same for tcp_recv_text: it does what it promises if and only if the segment is permitted. */
  lemma RecvTextKeepsExactly(r: Rx, s: Text, psh: bool, stray: nat)
    requires Tidy(r) && s.End() <= r.nxt + r.wnd
    ensures Kept(r, s, RecvText(r, s, psh, stray)) <==> Permitted(r, s, stray)
  {
    hide Reass, Sound, Safe, Tidy, Orderly;
    TidyExactly(r);
    TidyWindow(r);
    match Reassembled(r, s)
    case None =>
      RecvTextExact(r, s, psh, stray);
      TidyExactly(RecvText(r, s, psh, stray).rx);
    case Some(t) =>
      ReassKeepsExactly(r, t, psh, stray);
      AcknowledgedSame(r, s, t, psh, stray);
  }

  lemma TidyWindow(r: Rx)
    requires Tidy(r)
    ensures r.WindowOk()
  {
  }

  /** tcp_recv_text adds a trim below rcv_nxt and a flag to what tcp_segment_reass does. */
  lemma AcknowledgedSame(r: Rx, s: Text, t: Text, psh: bool, stray: nat)
    requires r.WindowOk() && Reassembled(r, s) == Some(t)
    ensures Kept(r, s, RecvText(r, s, psh, stray)) <==> Kept(r, t, Reass(r, t, psh, stray))
  {
    hide Reass, Sorted, Upto, Covers;
    var o := Reass(r, t, psh, stray);
    assert forall x :: x < r.nxt || (s.Has(x) <==> t.Has(x));
    if o.Fine? {
      var b := o.rx.(ackNow := true);
      assert Tidy(b) <==> Tidy(o.rx);
      assert forall x :: Have(b, x) <==> Have(o.rx, x);
      assert forall x :: Have(r, x) || s.Has(x) <==> Have(r, x) || t.Has(x);
    }
  }

  // ------------------------------------------------------------------------- where delivery stops

  /** A blank below which every octet has arrived. */
  ghost predicate BlocksAt(r: Rx, e: nat) {
    Blank(r.queue, e) && forall x :: x < e ==> Have(r, x)
  }

  /**
   * Delivery has come to a stop at a blank if and only if some blank is queued below which every
   * octet has arrived; in particular a queued blank does no harm before that.
   */
  lemma BlankBlocksExactly(r: Rx)
    requires Orderly(r)
    ensures Stuck(r) <==> exists e :: BlocksAt(r, e)
  {
    if Stuck(r) {
      assert BlocksAt(r, r.nxt);
    } else {
      forall e
        ensures !BlocksAt(r, e)
      {
        if Blank(r.queue, e) {
          BlankAbove(r.queue[0].start, r.queue, e);
          NotBelow(r.queue[0].start, r.queue, r.nxt);
          assert !Have(r, r.nxt);
        }
      }
    }
  }

  // ------------------------------------------------------------------------------------ the flags

  /** What the draining loop counts is what it delivers. */
  lemma {:induction false} DrainCounts(r: Rx, got: nat)
    requires r.Writable() && Drain(r, got).Some?
    ensures var (r', n) := Drain(r, got).value;
            n - got == r'.nxt - r.nxt >= 0
            && r'.push == r.push && r'.ackNow == r.ackNow && r'.ackDelay == r.ackDelay
    decreases |r.queue|
  {
    if r.queue != [] && r.queue[0].start == r.nxt && WriteLen(r, r.queue[0].data) > 0 {
      DrainCounts(WriteBuf(r, r.queue[0].data).(queue := r.queue[1..]), got + WriteLen(r, r.queue[0].data));
    }
  }

  /** The reader is released by a segment with PUSH if and only if it delivered something. */
  lemma PushMeansDelivered(r: Rx, s: Text, psh: bool, stray: nat)
    requires r.WindowOk() && RecvText(r, s, psh, stray).Fine?
    ensures var r' := RecvText(r, s, psh, stray).rx;
            r.nxt <= r'.nxt && (r'.push <==> r.push || (psh && r.nxt < r'.nxt))
  {
    hide Place;
    if r.wnd > 0 && TrimHead(s, r.nxt).Some? {
      var t := TrimHead(s, r.nxt).value;
      var p := Place(stray, r.queue, t);
      if !(r.nxt == t.start && r.queue == []) && p.Put? {
        DrainCounts(r.(queue := p.queue), 0);
      }
    }
  }

  /**
   * Text that reaches beyond rcv_nxt is acknowledged while the window is open: at once if anything
   * is or was out of order, later otherwise. Nothing else raises a flag.
   */
  lemma TextIsAcknowledged(r: Rx, s: Text, psh: bool, stray: nat)
    requires r.WindowOk() && RecvText(r, s, psh, stray).Fine? && |s.data| > 0
    ensures var r' := RecvText(r, s, psh, stray).rx;
            var news := r.wnd > 0 && r.nxt < s.End();
            var inOrder := s.start <= r.nxt && r.queue == [];
            && (r'.ackNow <==> r.ackNow || (news && !inOrder))
            && (r'.ackDelay <==> r.ackDelay || (news && inOrder))
  {
    hide Place;
    if r.wnd > 0 && TrimHead(s, r.nxt).Some? {
      var t := TrimHead(s, r.nxt).value;
      var p := Place(stray, r.queue, t);
      if !(r.nxt == t.start && r.queue == []) && p.Put? {
        DrainCounts(r.(queue := p.queue), 0);
      }
    }
  }
}
