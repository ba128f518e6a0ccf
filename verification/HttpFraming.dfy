/** What a body parse delivers does not depend on how the input was cut into calls. */
module HttpFraming {
  import opened Bytes
  import opened HttpBody
  import opened HttpParser

  // --------------------------------------------------------------------------------- any splitting

  function Joined(pieces: seq<seq<byte>>): seq<byte> {
    if pieces == [] then [] else pieces[0] + Joined(pieces[1..])
  }

  /** One call: no data at all means the end of input. */
  function Call(p: Parser, data: seq<byte>): (r: Fed)
    requires Valid(p)
    ensures Valid(r.parser)
  {
    if data == [] then Eof(p) else
      var r := Feed(p, data);
      Fed(r.parser, Delivered(r))
  }

  /** What the callbacks deliver over a series of calls, and the parser afterwards. */
  function Series(p: Parser, pieces: seq<seq<byte>>): Fed
    requires Valid(p)
    decreases |pieces|
  {
    if pieces == [] then Fed(p, [])
    else
      var r := Call(p, pieces[0]);
      var s := Series(r.parser, pieces[1..]);
      Fed(s.parser, r.notes + s.notes)
  }

  /** Empty calls find the parser settled: in error, or done with the message. */
  predicate Calm(p: Parser, pieces: seq<seq<byte>>)
    requires Valid(p)
    decreases |pieces|
  {
    pieces == []
    || ((pieces[0] == [] ==> Settled(p)) && Calm(Call(p, pieces[0]).parser, pieces[1..]))
  }

  lemma NoEmptyIsCalm(p: Parser, pieces: seq<seq<byte>>)
    requires Valid(p) && forall i :: 0 <= i < |pieces| ==> pieces[i] != []
    ensures Calm(p, pieces)
    decreases |pieces|
  {
  }

  /** Reading octets never ends in the error of an unexpected end of input. */
  lemma {:induction false} FeedNeverEof(p: Parser, data: seq<byte>)
    requires Valid(p) && !p.errno.INVALID_EOF_STATE?
    ensures !Feed(p, data).parser.errno.INVALID_EOF_STATE?
    decreases |data|
  {
    if data != [] {
      StepNeverEof(p, data[0]);
      FeedNeverEof(Step(p, data[0]).parser, data[1..]);
    }
  }

  lemma StepNeverEof(p: Parser, c: byte)
    requires Valid(p) && !p.errno.INVALID_EOF_STATE?
    ensures !Step(p, c).parser.errno.INVALID_EOF_STATE?
  {
  }

  lemma {:induction false} SeriesFailed(p: Parser, pieces: seq<seq<byte>>)
    requires Valid(p) && !p.errno.OK?
    ensures Series(p, pieces).parser == p
    decreases |pieces|
  {
    if pieces != [] {
      FeedStopped(p, pieces[0]);
      SeriesFailed(p, pieces[1..]);
    }
  }

  /** Octets up to the end of the connection are body octets. */
  lemma UnboundedBody(p: Parser, data: seq<byte>)
    requires Valid(p) && p.errno.OK? && p.state.BodyEof?
    ensures Feed(p, data) == Fed(p, Bodies(data))
  {
    FeedRun(p, data);
  }

  /** An empty call that does not find the parser settled shows, whatever follows. */
  lemma EmptyCallShows(p: Parser, rest: seq<seq<byte>>)
    requires Valid(p) && !Settled(p)
    ensures Series(p, [[]] + rest) != Feed(p, Joined(rest))
  {
    assert ([[]] + rest)[1..] == rest;
    if p.state.BodyEof? {
      UnboundedBody(p, Joined(rest));
      if Joined(rest) != [] {
        FirstIsBody(Joined(rest));
      }
    } else {
      SeriesFailed(Eof(p).parser, rest);
      FeedNeverEof(p, Joined(rest));
    }
  }

  lemma {:induction false} FirstIsBody(data: seq<byte>)
    requires data != []
    ensures Bodies(data)[0].Body?
    decreases |data|
  {
    if |data| > 1 {
      FirstIsBody(data[..|data| - 1]);
    }
  }

  /**
   * For every input and every cutting into calls, empty ones included: parser and callbacks are
   * those of one call with everything if and only if empty calls find the parser settled; a CR
   * that is missing behind a chunk is the only other thing that shows.
   */
  lemma {:induction false} SplitIndependent(p: Parser, pieces: seq<seq<byte>>)
    requires Valid(p)
    ensures Calm(p, pieces) ==> Series(p, pieces).parser == Feed(p, Joined(pieces)).parser
    ensures !MissingCr(Feed(p, Joined(pieces)).parser) ==>
              (Series(p, pieces) == Feed(p, Joined(pieces)) <==> Calm(p, pieces))
    decreases |pieces|
  {
    hide Feed, Step, Delivered;
    if pieces == [] {
      FeedNothing(p);
    } else if pieces[0] == [] {
      assert [] + Joined(pieces[1..]) == Joined(pieces[1..]);
      assert pieces == [[]] + pieces[1..];
      if Settled(p) {
        assert [] + Series(p, pieces[1..]).notes == Series(p, pieces[1..]).notes;
        SplitIndependent(p, pieces[1..]);
      } else {
        EmptyCallShows(p, pieces[1..]);
      }
    } else {
      SplitFirst(p, pieces[0], Joined(pieces[1..]));
      var r := Feed(p, pieces[0]);
      SplitIndependent(r.parser, pieces[1..]);
      if !MissingCr(Feed(p, Joined(pieces)).parser) {
        SamePrefix(r.notes, Series(r.parser, pieces[1..]).notes, Feed(r.parser, Joined(pieces[1..])).notes);
      }
    }
  }

  lemma SamePrefix(a: seq<Note>, x: seq<Note>, y: seq<Note>)
    ensures a + x == a + y <==> x == y
  {
    if a + x == a + y {
      assert x == (a + x)[|a|..] && y == (a + y)[|a|..];
    }
  }

  /** The first call and the rest. */
  lemma SplitFirst(p: Parser, a: seq<byte>, b: seq<byte>)
    requires Valid(p)
    ensures var r := Feed(p, a);
            && Feed(p, a + b) == Fed(Feed(r.parser, b).parser, r.notes + Feed(r.parser, b).notes)
            && (!MissingCr(Feed(p, a + b).parser) ==> Delivered(r) == r.notes)
  {
    hide Feed;
    FeedConcat(p, a, b);
    if MissingCr(Feed(p, a).parser) {
      FeedStopped(Feed(p, a).parser, b);
    }
  }

  lemma FeedNothing(p: Parser)
    requires Valid(p)
    ensures Feed(p, []) == Fed(p, [])
  {
  }

  // ------------------------------------------------------- where the cutting does matter, exactly

  predicate AllBody(notes: seq<Note>) {
    forall i :: 0 <= i < |notes| ==> notes[i].Body?
  }

  /**
   * The cut lies behind octets of a chunk whose terminating CR is missing in the next call; `r` is
   * what the first call left.
   */
  predicate CutsDoomedChunk(r: Fed, b: seq<byte>) {
    var q := r.parser;
    && q.errno.OK? && (q.state.ChunkData? || q.state.ChunkDataAlmostDone?)
    && q.left < |b| && b[q.left] != CR && EndsInBody(r.notes)
  }

  /** Inside a chunk the missing CR is found behind nothing but octets of the chunk, and only so. */
  lemma InsideChunk(q: Parser, b: seq<byte>)
    requires Valid(q) && q.errno.OK? && (q.state.ChunkData? || q.state.ChunkDataAlmostDone?)
    ensures var s := Feed(q, b);
            MissingCr(s.parser) && AllBody(s.notes) <==> q.left < |b| && b[q.left] != CR
  {
    hide Feed, Bodies, AllBody;
    if |b| < q.left {
      FeedRun(q, b);
    } else {
      var run, rest, end := b[..q.left], b[q.left..], q.(left := 0, state := ChunkDataAlmostDone);
      assert b == run + rest;
      FeedConcat(q, run, rest);
      AtChunkEnd(q, run);
      BehindChunk(end, rest);
      BodiesAreBody(run);
      AllBodyConcat(Bodies(run), Feed(end, rest).notes);
      assert rest != [] ==> rest[0] == b[q.left];
    }
  }

  lemma AllBodyConcat(x: seq<Note>, y: seq<Note>)
    ensures AllBody(x + y) <==> AllBody(x) && AllBody(y)
  {
    if AllBody(x + y) {
      assert forall i :: 0 <= i < |x| ==> x[i] == (x + y)[i];
      assert forall i :: 0 <= i < |y| ==> y[i] == (x + y)[|x| + i];
    }
  }

  lemma AtChunkEnd(q: Parser, run: seq<byte>)
    requires Valid(q) && q.errno.OK? && (q.state.ChunkData? || q.state.ChunkDataAlmostDone?)
    requires |run| == q.left
    ensures Feed(q, run) == Fed(q.(left := 0, state := ChunkDataAlmostDone), Bodies(run))
  {
    if q.state.ChunkData? {
      FeedWhole(q, run);
    }
  }

  lemma {:induction false} BodiesAreBody(data: seq<byte>)
    ensures AllBody(Bodies(data))
    decreases |data|
  {
    if data != [] {
      BodiesAreBody(data[..|data| - 1]);
    }
  }

  /** Right behind the chunk: the first octet decides, for a CR is followed by chunk_complete. */
  lemma BehindChunk(q: Parser, b: seq<byte>)
    requires Valid(q) && q.errno.OK? && q.state.ChunkDataAlmostDone?
    ensures var s := Feed(q, b);
            && (MissingCr(s.parser) && AllBody(s.notes) <==> b != [] && b[0] != CR)
            && (b != [] && b[0] != CR ==> s.notes == [])
  {
    if b != [] {
      if b[0] == CR {
        NoChunkWithoutHeader(q.(state := ChunkDataDone), b[1..]);
        assert [] + Feed(q.(state := ChunkDataDone), b[1..]).notes == Feed(q.(state := ChunkDataDone), b[1..]).notes;
      } else {
        FeedStopped(q.(errno := STRICT), b[1..]);
      }
    }
  }

  predicate Outside(p: Parser) {
    !MissingCr(p) && !(p.errno.OK? && (p.state.ChunkData? || p.state.ChunkDataAlmostDone?))
  }

  /** From outside a chunk its data is reached only through chunk_header. */
  lemma {:induction false} NoChunkWithoutHeader(p: Parser, b: seq<byte>)
    requires Valid(p) && Outside(p)
    ensures MissingCr(Feed(p, b).parser) ==> !AllBody(Feed(p, b).notes)
    decreases |b|
  {
    if b != [] {
      StepOutside(p, b[0]);
      var s := Step(p, b[0]);
      var r := Feed(s.parser, b[1..]);
      if Outside(s.parser) {
        NoChunkWithoutHeader(s.parser, b[1..]);
        if !AllBody(r.notes) {
          var i :| 0 <= i < |r.notes| && !r.notes[i].Body?;
          assert (s.notes + r.notes)[|s.notes| + i] == r.notes[i];
        }
      } else {
        assert (s.notes + r.notes)[0] == ChunkHeader;
      }
    }
  }

  lemma StepOutside(p: Parser, c: byte)
    requires Valid(p) && Outside(p)
    ensures Outside(Step(p, c).parser) || Step(p, c).notes == [ChunkHeader]
  {
  }

  lemma {:induction false} TrailingConcat(x: seq<Note>, y: seq<Note>)
    ensures TrailingBodies(x + y) == if AllBody(y) then TrailingBodies(x) + |y| else TrailingBodies(y)
    ensures TrailingBodies(y) == |y| <==> AllBody(y)
    decreases |y|
  {
    if y == [] {
      assert x + y == x;
    } else {
      var front := y[..|y| - 1];
      assert (x + y)[..|x + y| - 1] == x + front;
      TrailingConcat(x, front);
      assert AllBody(y) <==> AllBody(front) && y[|y| - 1].Body?;
    }
  }

  /** One call or two: the delivered notes agree if and only if the cut spares the doomed chunk. */
  lemma CutMattersExactly(p: Parser, a: seq<byte>, b: seq<byte>)
    requires Valid(p)
    ensures Delivered(Feed(p, a)) + Delivered(Feed(Feed(p, a).parser, b)) == Delivered(Feed(p, a + b))
            <==> !CutsDoomedChunk(Feed(p, a), b)
  {
    hide Feed, Delivered;
    var r := Feed(p, a);
    var s := Feed(r.parser, b);
    FeedConcat(p, a, b);
    if !r.parser.errno.OK? {
      FeedStopped(r.parser, b);
      assert r.notes + [] == r.notes && Delivered(r) + [] == Delivered(r);
      assert Delivered(s) == [] by {
        DeliveredOf(s);
      }
    } else {
      if Outside(r.parser) {
        NoChunkWithoutHeader(r.parser, b);
      } else {
        InsideChunk(r.parser, b);
      }
      BothDelivered(r, s);
    }
  }

  lemma DeliveredOf(r: Fed)
    ensures r.notes == [] ==> Delivered(r) == []
    ensures !MissingCr(r.parser) ==> Delivered(r) == r.notes
  {
  }

  /** What is delivered of two runs of notes at once, and one after the other. */
  lemma BothDelivered(r: Fed, s: Fed)
    requires !MissingCr(r.parser)
    ensures Delivered(r) + Delivered(s) == Delivered(Fed(s.parser, r.notes + s.notes))
            <==> !(MissingCr(s.parser) && EndsInBody(r.notes) && AllBody(s.notes))
  {
    if MissingCr(s.parser) {
      TrailingConcat(r.notes, s.notes);
      var k := TrailingBodies(s.notes);
      assert (r.notes + s.notes)[..|r.notes| + |s.notes| - k] == r.notes + s.notes[..|s.notes| - k];
    }
  }

  /** A chunk of one octet without its CR: cut behind the octet, it is delivered; whole, it is not. */
  lemma DoomedChunkExample()
    ensures var p := Parser(ChunkData, 1, 0, OK);
            CutsDoomedChunk(Feed(p, [88]), [81]) && Delivered(Feed(p, [88, 81])) == []
  {
    var p := Parser(ChunkData, 1, 0, OK);
    var q := Parser(ChunkDataAlmostDone, 0, 0, OK);
    FeedOneOctet(p, 88);
    FeedOneOctet(q, 81);
    FeedConcat(p, [88], [81]);
    assert [88, 81] == [88 as byte] + [81];
    var n := [Body(88)];
    assert n + [] == n && n[..0] == [] && TrailingBodies(n) == 1;
  }

  lemma FeedOneOctet(p: Parser, c: byte)
    requires Valid(p)
    ensures Feed(p, [c]) == Step(p, c)
  {
    FeedOne(p, [c], 0);
    assert [c][0..1] == [c];
  }

  // -------------------------------------------------------------------------------- Content-Length

  /** With Content-Length n the next n octets are the body, then message_complete, and nothing else. */
  lemma LengthDelimits(n: nat, data: seq<byte>, nread: nat)
    requires 0 < n < NO_LENGTH
    ensures var p := Parser(BodyIdentity, n, nread, OK);
            if |data| < n
            then Feed(p, data) == Fed(p.(left := n - |data|), Bodies(data))
            else Feed(p, data) == Fed(p.(left := 0, state := Elsewhere), Bodies(data[..n]) + [MessageComplete])
  {
    hide Feed, Bodies;
    var p := Parser(BodyIdentity, n, nread, OK);
    if |data| < n {
      FeedRun(p, data);
    } else {
      var body, rest := data[..n], data[n..];
      assert data == body + rest;
      FeedWhole(p, body);
      FeedConcat(p, body, rest);
      FeedStopped(p.(left := 0, state := Elsewhere), rest);
      var notes := Bodies(body) + [MessageComplete];
      assert notes + [] == notes;
    }
  }

  /** ... over every cutting into calls in which an empty one does not come too early. */
  lemma LengthDelimitsEverySplitting(n: nat, pieces: seq<seq<byte>>, nread: nat)
    requires 0 < n < NO_LENGTH
    ensures var p, data := Parser(BodyIdentity, n, nread, OK), Joined(pieces);
            Series(p, pieces) == (if |data| < n then Fed(p.(left := n - |data|), Bodies(data))
                                  else Fed(p.(left := 0, state := Elsewhere), Bodies(data[..n]) + [MessageComplete]))
            <==> Calm(p, pieces)
  {
    hide Feed, Series, Calm;
    var p := Parser(BodyIdentity, n, nread, OK);
    LengthDelimits(n, Joined(pieces), nread);
    SplitIndependent(p, pieces);
  }

  predicate Digits(s: seq<byte>) {
    forall i :: 0 <= i < |s| ==> 48 <= s[i] <= 57
  }

  function DecimalValue(s: seq<byte>): nat
    requires Digits(s)
  {
    if s == [] then 0 else DecimalValue(s[..|s| - 1]) * 10 + (s[|s| - 1] as int - 48)
  }

  datatype Length = Rejected | Length(value: nat)

  /** The Content-Length accumulator: 64 bits, tested after the arithmetic. */
  function Accumulate(s: seq<byte>): Length
    requires Digits(s) && s != []
    decreases |s|
  {
    if |s| == 1 then Length(s[0] as int - 48)
    else match Accumulate(s[..|s| - 1])
      case Rejected => Rejected
      case Length(v) =>
        var t := (v * 10 + (s[|s| - 1] as int - 48)) % U64;
        if (NO_LENGTH - 10) / 10 < v then Rejected else Length(t)
  }

  /**
   * The accumulator never wraps and never yields the "no length" sentinel: it gives the exact value,
   * or rejects, and it rejects exactly when all digits but the last exceed the limit.
   */
  lemma {:induction false} LengthIsExact(s: seq<byte>)
    requires Digits(s) && s != []
    ensures Accumulate(s)
            == if DecimalValue(s[..|s| - 1]) <= (NO_LENGTH - 10) / 10 then Length(DecimalValue(s)) else Rejected
    ensures Accumulate(s).Length? ==> Accumulate(s).value < NO_LENGTH
    decreases |s|
  {
    var front := s[..|s| - 1];
    if |s| == 1 {
      assert front == [];
    } else {
      LengthIsExact(front);
      var v, d := DecimalValue(front), s[|s| - 1] as int - 48;
      assert DecimalValue(s) == v * 10 + d;
      if v <= (NO_LENGTH - 10) / 10 {
        assert v * 10 + d < NO_LENGTH;
      }
    }
  }
}
