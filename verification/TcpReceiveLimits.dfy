/** What the receive path does with more than fits the window, and with each queued text. */
module TcpReceiveLimits {
  import opened Wrappers
  import opened Bytes
  import opened TcpReceive
  import opened TcpReceiveProofs

  // ------------------------------------------------------------------------- beyond the window

  /** In-order text on an empty queue is taken up to the right edge of the window, and no further. */
  lemma InOrderTakesWhatFits(r: Rx, s: Text, psh: bool, stray: nat)
    requires r.WindowOk() && r.wnd > 0 && r.queue == [] && s.start <= r.nxt <= s.End()
    ensures var o := RecvText(r, s, psh, stray);
            && o.Fine? && o.rx.queue == []
            && o.rx.nxt == Min(s.End(), r.nxt + r.wnd) && o.rx.nxt + o.rx.wnd == r.nxt + r.wnd
            && o.rx.Pending() == r.Pending() + s.data[r.nxt - s.start..o.rx.nxt - s.start]
  {
    hide RecvText;
    var k := r.nxt - s.start;
    if k > 0 && r.nxt == s.End() {
      NothingLeft(r, s, psh, stray);
      assert r.Pending() + s.data[k..k] == r.Pending();
    } else {
      DirectWrite(r, s, psh, stray);
      var o := RecvText(r, s, psh, stray);
      SliceAgain(s.data, k, o.rx.nxt - r.nxt);
    }
  }

  lemma NothingLeft(r: Rx, s: Text, psh: bool, stray: nat)
    requires r.WindowOk() && s.start < r.nxt == s.End()
    ensures RecvText(r, s, psh, stray) == Fine(r, s.start)
  {
  }

  lemma DirectWrite(r: Rx, s: Text, psh: bool, stray: nat)
    requires r.WindowOk() && r.wnd > 0 && r.queue == [] && s.start <= r.nxt && (r.nxt < s.End() || r.nxt == s.start)
    ensures var o, data := RecvText(r, s, psh, stray), s.data[r.nxt - s.start..];
            && o.Fine? && o.rx.queue == [] && r.nxt <= o.rx.nxt <= r.nxt + |data|
            && o.rx.nxt + o.rx.wnd == r.nxt + r.wnd && (o.rx.wnd == 0 || o.rx.nxt == r.nxt + |data|)
            && o.rx.Pending() == r.Pending() + data[..o.rx.nxt - r.nxt]
  {
    hide WriteBuf, Reass;
    assert s.data[0..] == s.data;
  }

  lemma SliceAgain(data: seq<byte>, k: nat, n: nat)
    requires k + n <= |data|
    ensures data[k..][..n] == data[k..k + n]
  {
  }

  /** Delivery goes on until the window is closed, at a gap, or at a blank. */
  predicate Halted(r: Rx) {
    r.wnd == 0 || Drained(r) || Stuck(r)
  }

  lemma {:induction false} DrainHalts(r: Rx, got: nat)
    requires r.Writable() && Drain(r, got).Some?
    ensures Halted(Drain(r, got).value.0)
    decreases |r.queue|
  {
    if r.queue != [] && r.queue[0].start == r.nxt {
      var n := WriteLen(r, r.queue[0].data);
      if n > 0 {
        DrainHalts(WriteBuf(r, r.queue[0].data).(queue := r.queue[1..]), got + n);
      }
    }
  }

  /** So does tcp_segment_reass, wherever the segment ends. */
  lemma ReassHalts(r: Rx, t: Text, psh: bool, stray: nat)
    requires r.Writable() && Ordered(r.nxt, r.queue) && r.nxt <= t.start && Halted(r)
    requires Reass(r, t, psh, stray).Fine?
    ensures Halted(Reass(r, t, psh, stray).rx)
  {
    hide Place, Drain;
    var p := Place(stray, r.queue, t);
    if p.Skip? {
      SkipHead(stray, r.queue, t, r.nxt);
    } else {
      DrainHalts(r.(queue := p.queue), 0);
    }
  }

  /** Where the text that continues the stream at `n` without a gap ends. */
  function RunEnd(n: nat, q: seq<Text>): (e: nat)
    ensures n <= e
    decreases |q|
  {
    if q == [] || q[0].start != n || q[0].data == [] then n else RunEnd(q[0].End(), q[1..])
  }

  /** The texts that start at `n` or later. */
  function From(q: seq<Text>, n: nat): seq<Text> {
    if q == [] then [] else (if n <= q[0].start then [q[0]] else []) + From(q[1..], n)
  }

  lemma {:induction false} FromAll(lo: nat, q: seq<Text>, n: nat)
    requires Ordered(lo, q) && n <= lo
    ensures From(q, n) == q
    decreases |q|
  {
    if q != [] {
      FromAll(q[0].End(), q[1..], n);
    }
  }

  /**
   * Draining an ordered queue, whatever its length: everything that continues the stream is
   * delivered as far as the window allows, and exactly the texts that start later stay queued. A
   * text that fits only in part goes altogether.
   */
  lemma {:induction false} DrainDelivers(r: Rx, got: nat)
    requires r.Writable() && Ordered(r.nxt, r.queue)
    ensures Drain(r, got).Some?
    ensures var r' := Drain(r, got).value.0;
            && r'.nxt == Min(RunEnd(r.nxt, r.queue), r.nxt + r.wnd) && r'.nxt + r'.wnd == r.nxt + r.wnd
            && r'.queue == From(r.queue, r'.nxt)
    decreases |r.queue|
  {
    hide Drain, WriteBuf;
    if r.queue != [] && r.queue[0].start == r.nxt && r.queue[0].data != [] && r.wnd > 0 {
      var t, rest := r.queue[0], r.queue[1..];
      var w := WriteBuf(r, t.data).(queue := rest);
      DrainOne(r, got);
      OrderedWeaken(t.End(), w.nxt, rest);
      DrainDelivers(w, got + WriteLen(r, t.data));
      var r' := Drain(w, got + WriteLen(r, t.data)).value.0;
      assert From(r.queue, r'.nxt) == [] + From(rest, r'.nxt);
      if t.End() > w.nxt {
        RunEndStops(w.nxt, t.End(), rest);
      }
    } else {
      FromAll(r.nxt, r.queue, r.nxt);
      DrainNone(r, got);
    }
  }

  lemma DrainOne(r: Rx, got: nat)
    requires r.Writable() && r.wnd > 0 && r.queue != [] && r.queue[0].start == r.nxt && r.queue[0].data != []
    ensures var w := WriteBuf(r, r.queue[0].data).(queue := r.queue[1..]);
            && w.Writable() && Drain(r, got) == Drain(w, got + WriteLen(r, r.queue[0].data))
            && w.nxt == Min(r.queue[0].End(), r.nxt + r.wnd) && w.nxt + w.wnd == r.nxt + r.wnd
  {
  }

  lemma DrainNone(r: Rx, got: nat)
    requires r.Writable() && Ordered(r.nxt, r.queue)
    requires r.queue == [] || r.nxt < r.queue[0].start || r.queue[0].data == [] || r.wnd == 0
    ensures Drain(r, got).Some?
    ensures var r' := Drain(r, got).value.0; r'.nxt == r.nxt && r'.wnd == r.wnd && r'.queue == r.queue
  {
  }

  lemma RunEndStops(n: nat, lo: nat, q: seq<Text>)
    requires Ordered(lo, q) && n < lo
    ensures RunEnd(n, q) == n
  {
  }

  /** Some queued text begins before the new rcv_nxt and ends behind it: its rest is lost. */
  predicate CutOff(q: seq<Text>, n: nat) {
    exists i :: 0 <= i < |q| && q[i].start < n < q[i].End()
  }

  lemma {:induction false} FromCovers(lo: nat, q: seq<Text>, n: nat, x: int)
    requires Ordered(lo, q)
    ensures Covers(From(q, n), x) ==> Covers(q, x)
    ensures n <= x && Covers(q, x) && !Covers(From(q, n), x) ==> CutOff(q, n)
    decreases |q|
  {
    if q != [] {
      var rest := From(q[1..], n);
      FromCovers(q[0].End(), q[1..], n, x);
      if n <= q[0].start {
        assert ([q[0]] + rest)[1..] == rest;
      } else {
        assert [] + rest == rest;
        if q[0].Has(x) && n <= x {
          assert q[0].start < n < q[0].End();
        }
      }
      if CutOff(q[1..], n) {
        var i :| 0 <= i < |q[1..]| && q[1..][i].start < n < q[1..][i].End();
        assert q[i + 1] == q[1..][i];
      }
    }
  }

  lemma {:induction false} CutOffLoses(lo: nat, q: seq<Text>, n: nat, i: nat)
    requires Ordered(lo, q) && i < |q| && q[i].start < n < q[i].End()
    ensures Covers(q, n) && !Covers(From(q, n), n)
    decreases i
  {
    if i == 0 {
      var rest := From(q[1..], n);
      assert [] + rest == rest;
      NotBelow(q[0].End(), q[1..], n);
      FromCovers(q[0].End(), q[1..], n, n);
    } else {
      CutOffLoses(q[0].End(), q[1..], n, i - 1);
      EndsRise(lo, q, 0, i);
      var rest := From(q[1..], n);
      assert [] + rest == rest;
    }
  }

  /** Draining loses octets if and only if the window ends in the middle of a text it takes. */
  lemma DrainLosesExactly(r: Rx, got: nat)
    requires r.Writable() && Ordered(r.nxt, r.queue)
    ensures Drain(r, got).Some?
    ensures (forall x :: Have(r, x) ==> Have(Drain(r, got).value.0, x))
            <==> !CutOff(r.queue, Min(RunEnd(r.nxt, r.queue), r.nxt + r.wnd))
  {
    hide Drain, Covers, From, RunEnd;
    DrainDelivers(r, got);
    var r' := Drain(r, got).value.0;
    if CutOff(r.queue, r'.nxt) {
      var i :| 0 <= i < |r.queue| && r.queue[i].start < r'.nxt < r.queue[i].End();
      CutOffLoses(r.nxt, r.queue, r'.nxt, i);
      assert Have(r, r'.nxt) && !Have(r', r'.nxt);
    } else {
      forall x | Have(r, x)
        ensures Have(r', x)
      {
        FromCovers(r.nxt, r.queue, r'.nxt, x);
      }
    }
  }

  // ------------------------------------------------------------------- the queue, text by text

  /** The texts that reach beyond `e`. */
  function Beyond(q: seq<Text>, e: nat): seq<Text> {
    if q == [] then [] else (if e < q[0].End() then [q[0]] else []) + Beyond(q[1..], e)
  }

  lemma {:induction false} BeyondAll(lo: nat, q: seq<Text>, e: nat)
    requires Ordered(lo, q) && e < lo
    ensures Beyond(q, e) == q
    decreases |q|
  {
    if q != [] {
      BeyondAll(q[0].End(), q[1..], e);
    }
  }

  /** The segment and the texts that reach beyond it; it ends where the first of these begins. */
  function Merged(t: Text, rest: seq<Text>): Placed {
    if rest == [] || t.End() <= rest[0].start then Put([t] + rest, t.start)
    else if rest[0].start <= t.start then Skip(rest, t.start)
    else Put([Text(t.start, t.data[..rest[0].start - t.start])] + rest, t.start)
  }

  /** The deletion loop removes exactly the texts that the segment covers to their end. */
  lemma {:induction false} AbsorbIs(t: Text, q: seq<Text>, lo: nat)
    requires Ordered(lo, q) && (q != [] ==> t.start <= q[0].start)
    ensures Absorb(t, q) == Merged(t, Beyond(q, t.End()))
    decreases |q|
  {
    if q == [] {
    } else if q[0].End() <= t.End() {
      AbsorbIs(t, q[1..], q[0].End());
      assert [] + Beyond(q[1..], t.End()) == Beyond(q[1..], t.End());
    } else {
      BeyondAll(q[0].End(), q[1..], t.End());
      assert [q[0]] + q[1..] == q;
    }
  }

  /** The texts that start at `n` or before. */
  function StartUpto(q: seq<Text>, n: nat): seq<Text> {
    if q == [] then [] else (if q[0].start <= n then [q[0]] else []) + StartUpto(q[1..], n)
  }

  lemma {:induction false} StartAbove(lo: nat, q: seq<Text>, n: nat)
    requires Ordered(lo, q) && n < lo
    ensures StartUpto(q, n) == [] && From(q, n + 1) == q
    decreases |q|
  {
    if q != [] {
      StartAbove(q[0].End(), q[1..], n);
    }
  }

  /** What the two loops make of any ordered queue: texts up to the start of the segment stay in front. */
  function PlacedIn(prevEnd: nat, below: seq<Text>, above: seq<Text>, s: Text): Placed {
    if above == [] then Put(below + [s], s.start)
    else match TrimHead(s, if below == [] then prevEnd else below[|below| - 1].End())
      case None => Skip(below + above, s.start)
      case Some(t) => AllBehind(below, Merged(t, Beyond(above, t.End())))
  }

  /** The search and the deletion, text by text; a trim that passes the next text needs a stray number. */
  lemma {:induction false} PlaceIs(lo: nat, prevEnd: nat, q: seq<Text>, s: Text)
    requires Ordered(lo, q) && (Front(q, s) ==> prevEnd <= q[0].start || s.End() <= prevEnd)
    ensures Place(prevEnd, q, s) == PlacedIn(prevEnd, StartUpto(q, s.start), From(q, s.start + 1), s)
    decreases |q|
  {
    if q == [] {
    } else if Front(q, s) {
      StartAbove(q[0].start, q, s.start);
      PlaceFront(lo, prevEnd, q, s);
    } else {
      var rest := q[1..];
      PlaceIs(q[0].End(), q[0].End(), rest, s);
      PlacedBehind(prevEnd, q[0], StartUpto(rest, s.start), From(rest, s.start + 1), s);
      assert [] + From(rest, s.start + 1) == From(rest, s.start + 1);
    }
  }

  lemma PlaceFront(lo: nat, prevEnd: nat, q: seq<Text>, s: Text)
    requires Ordered(lo, q) && Front(q, s) && (prevEnd <= q[0].start || s.End() <= prevEnd)
    ensures Place(prevEnd, q, s) == PlacedIn(prevEnd, [], q, s)
  {
    match TrimHead(s, prevEnd)
    case None => assert [] + q == q;
    case Some(t) =>
      AbsorbIs(t, q, lo);
      var m := Merged(t, Beyond(q, t.End()));
      assert [] + m.queue == m.queue;
  }

  lemma PlacedBehind(prevEnd: nat, head: Text, below: seq<Text>, above: seq<Text>, s: Text)
    ensures Behind(head, PlacedIn(head.End(), below, above, s)) == PlacedIn(prevEnd, [head] + below, above, s)
  {
    var all := [head] + below;
    assert below != [] ==> all[|all| - 1] == below[|below| - 1];
    Assoc([head], below, [s]);
    Assoc([head], below, above);
    match TrimHead(s, if below == [] then head.End() else below[|below| - 1].End())
    case None =>
    case Some(t) =>
      var m := Merged(t, Beyond(above, t.End()));
      Assoc([head], below, m.queue);
  }
}
