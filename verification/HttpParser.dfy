/** http_parser_execute as the source runs it: a pointer, a body mark and callbacks on whole runs. */
module HttpParser {
  import opened Bytes
  import opened HttpBody

  datatype Call = OnBody(data: seq<byte>) | OnChunkHeader | OnChunkComplete | OnMessageComplete

  function NotesOf(c: Call): seq<Note> {
    match c
    case OnBody(data) => Bodies(data)
    case OnChunkHeader => [ChunkHeader]
    case OnChunkComplete => [ChunkComplete]
    case OnMessageComplete => [MessageComplete]
  }

  /** The callbacks of a call, body octets one by one. */
  function Flat(calls: seq<Call>): seq<Note> {
    if calls == [] then [] else Flat(calls[..|calls| - 1]) + NotesOf(calls[|calls| - 1])
  }

  lemma FlatAppend(calls: seq<Call>, c: Call)
    ensures Flat(calls + [c]) == Flat(calls) + NotesOf(c)
  {
    assert (calls + [c])[..|calls|] == calls;
  }

  predicate EndsInBody(notes: seq<Note>) {
    notes != [] && notes[|notes| - 1].Body?
  }

  /** How many body octets stand at the end. */
  function TrailingBodies(notes: seq<Note>): (n: nat)
    ensures n <= |notes|
  {
    if EndsInBody(notes) then 1 + TrailingBodies(notes[..|notes| - 1]) else 0
  }

  /** The parse failed because the octet after chunk data is not CR. */
  predicate MissingCr(p: Parser) {
    p.errno.STRICT? && p.state.ChunkDataAlmostDone?
  }

  /**
   * What the callbacks deliver of the notes of one call: everything, except that the body run
   * still under the mark is lost when the parse fails right behind it.
   */
  function Delivered(r: Fed): seq<Note> {
    if MissingCr(r.parser) then r.notes[..|r.notes| - TrailingBodies(r.notes)] else r.notes
  }

  lemma {:induction false} TrailingBodiesOf(notes: seq<Note>, data: seq<byte>)
    requires !EndsInBody(notes)
    ensures TrailingBodies(notes + Bodies(data)) == |data|
    decreases |data|
  {
    if data == [] {
      assert notes + Bodies(data) == notes;
    } else {
      var front := data[..|data| - 1];
      assert (notes + Bodies(data))[..|notes + Bodies(data)| - 1] == notes + Bodies(front);
      TrailingBodiesOf(notes, front);
    }
  }

  class HttpParser {
    var state: State
    var content_length: nat
    var nread: nat
    var errno: Errno

    ghost function Abs(): Parser
      reads this
    {
      Parser(state, content_length, nread, errno)
    }

    /** The states that take one octet at a time, except for the body callback. */
    method Frame(c: byte) returns (calls: seq<Call>)
      requires Valid(Abs()) && !Stopped(Abs()) && !Carries(state)
      modifies this
      ensures Step(old(Abs()), c) == Fed(Abs(), Flat(calls))
      ensures |calls| <= 2 && forall k :: k in calls ==> !k.OnBody?
    {
      hide Flat;
      calls := [];
      FlatSmall(calls);
      if Counted(state) {
        nread := nread + 1;
        if nread > MAX_HEADER {
          errno := HEADER_OVERFLOW;
          return;
        }
      }
      match state {
        case ChunkSizeStart =>
          assert nread == 1;
          if Unhex(c) == -1 {
            errno := INVALID_CHUNK_SIZE;
          } else {
            content_length := Unhex(c);
            state := ChunkSize;
          }
        case ChunkSize =>
          if c == CR {
            state := ChunkSizeAlmostDone;
          } else if Unhex(c) == -1 {
            if c == 59 || c == 32 {
              state := ChunkParameters;
            } else {
              errno := INVALID_CHUNK_SIZE;
            }
          } else {
            var t := (content_length * 16 + Unhex(c)) % U64;
            if (NO_LENGTH - 16) / 16 < content_length {
              errno := INVALID_CONTENT_LENGTH;
            } else {
              content_length := t;
            }
          }
        case ChunkParameters =>
          if c == CR {
            state := ChunkSizeAlmostDone;
          }
        case ChunkSizeAlmostDone =>
          if c != LF {
            errno := STRICT;
          } else {
            nread := 0;
            state := if content_length == 0 then TrailerStart else ChunkData;
            calls := [OnChunkHeader];
          }
        case ChunkDataAlmostDone =>
          assert content_length == 0;
          if c != CR {
            errno := STRICT;
          } else {
            state := ChunkDataDone;
          }
        case ChunkDataDone =>
          if c != LF {
            errno := STRICT;
          } else {
            nread := 0;
            state := ChunkSizeStart;
            calls := [OnChunkComplete];
          }
        case TrailerStart =>
          if c == CR {
            state := TrailerAlmostDone;
          } else if c == LF {
            state := Elsewhere;
            calls := [OnChunkComplete, OnMessageComplete];
          } else if Token(c) {
            state := Trailer;
          } else {
            errno := INVALID_HEADER_TOKEN;
          }
        case TrailerAlmostDone =>
          if c != LF {
            errno := STRICT;
          } else {
            state := Elsewhere;
            calls := [OnChunkComplete, OnMessageComplete];
          }
      }
      FlatSmall(calls);
    }

    /** The body states: take as much as is there and as is still missing, in one go. */
    method TakeRun(data: seq<byte>, i: nat) returns (n: nat, done: bool)
      requires Valid(Abs()) && errno.OK? && Carries(state) && i < |data|
      modifies this
      ensures 0 < n && i + n <= |data|
      ensures Feed(old(Abs()), data[i..i + n])
              == Fed(Abs(), Bodies(data[i..i + n]) + (if done then [MessageComplete] else []))
      ensures errno.OK? && (done <==> state.Elsewhere?)
      ensures !done ==> Carries(state) || state.ChunkDataAlmostDone?
    {
      ghost var p := Abs();
      done := false;
      if state.BodyEof? {
        n := |data| - i;
        FeedRun(p, data[i..]);
        assert data[i..i + n] == data[i..];
      } else {
        n := Min(content_length, |data| - i);
        ghost var run := data[i..i + n];
        content_length := content_length - n;
        if content_length == 0 {
          FeedWhole(p, run);
          done := state.BodyIdentity?;
          state := if done then Elsewhere else ChunkDataAlmostDone;
        } else {
          FeedRun(p, run);
        }
      }
      assert Bodies(data[i..i + n]) + [] == Bodies(data[i..i + n]);
    }

    /** One turn of the loop over the data. */
    method Turn(ghost p0: Parser, data: seq<byte>, i: nat, mark: int, calls: seq<Call>)
      returns (i': nat, mark': int, calls': seq<Call>)
      requires Progress(p0, data, i, mark, calls, Abs()) && !Stopped(Abs()) && i < |data|
      modifies this
      ensures errno.OK? ==> i < i' && Progress(p0, data, i', mark', calls', Abs())
      ensures !errno.OK? ==> Feed(p0, data).parser == Abs() && Delivered(Feed(p0, data)) == Flat(calls')
    {
      hide Feed, Step, Bodies, Flat, Delivered;
      ghost var p := Abs();
      if Carries(state) {
        var n, done := TakeRun(data, i);
        i', mark', calls' := i + n, if mark < 0 then i else mark, calls;
        if done {
          RunCompletes(p0, data, i, mark, calls, p, n, Abs());
          calls' := calls' + [OnBody(data[mark'..i'])] + [OnMessageComplete];
          mark' := -1;
        } else {
          assert Bodies(data[i..i + n]) + [] == Bodies(data[i..i + n]);
          RunExtendsMark(p0, data, i, mark, calls, p, n, Abs());
        }
      } else {
        var k := Frame(data[i]);
        i', mark', calls' := i, mark, calls;
        if errno.OK? {
          FrameProgress(p0, data, i, mark, calls, p, k, Abs());
          if mark >= 0 {
            calls' := calls' + [OnBody(data[mark..i])];
          }
          i', mark', calls' := i + 1, -1, calls' + k;
        } else {
          FrameFails(p0, data, i, mark, calls, p, k, Abs());
        }
      }
    }

    /** http_parser_execute: runs and marks deliver what the octets say, one by one. */
    method Execute(data: seq<byte>) returns (calls: seq<Call>)
      requires Valid(Abs())
      modifies this
      ensures Valid(Abs())
      ensures data == [] ==> Fed(Abs(), Flat(calls)) == Eof(old(Abs()))
      ensures data != [] ==> Abs() == Feed(old(Abs()), data).parser
      ensures data != [] ==> Flat(calls) == Delivered(Feed(old(Abs()), data))
    {
      calls := [];
      FlatSmall(calls);
      ghost var p0 := Abs();
      if !errno.OK? {
        FeedStopped(p0, data);
        return;
      }
      if data == [] {
        if state.BodyEof? {
          calls := [OnMessageComplete];
          FlatSmall(calls);
        } else if !state.Elsewhere? {
          errno := INVALID_EOF_STATE;
        }
        return;
      }
      var i, mark: int := 0, -1;
      assert data[..0] == [];
      while i < |data| && !state.Elsewhere? && !state.Trailer?
        invariant errno.OK? && 0 <= i && Progress(p0, data, i, mark, calls, Abs())
      {
        i, mark, calls := Turn(p0, data, i, mark, calls);
        if !errno.OK? {
          return;
        }
      }
      if state.Elsewhere? || state.Trailer? {
        StopsHere(p0, data, i, calls, Abs());
      } else {
        assert data[..i] == data;
        if mark >= 0 {
          FlatAppend(calls, OnBody(data[mark..i]));
          calls := calls + [OnBody(data[mark..i])];
        } else {
          NothingMarked(Flat(calls), data, i);
        }
      }
    }
  }

  /** The octets under the mark. */
  function Marked(data: seq<byte>, mark: int, i: nat): seq<byte>
    requires mark <= i <= |data|
  {
    if mark < 0 then [] else data[mark..i]
  }

  predicate Markable(st: State) {
    Carries(st) || st.ChunkDataAlmostDone?
  }

  /** Between octets: what was called back plus what is under the mark is what octets say so far. */
  ghost predicate Progress(p0: Parser, data: seq<byte>, i: nat, mark: int, calls: seq<Call>, p: Parser) {
    && Valid(p0) && mark <= i <= |data|
    && Feed(p0, data[..i]) == Fed(p, Flat(calls) + Bodies(Marked(data, mark, i)))
    && (mark >= 0 ==> Markable(p.state))
    && (Markable(p.state) ==> !EndsInBody(Flat(calls)))
  }

  lemma Regroup(a: seq<Note>, b: seq<Note>, c: seq<Note>, d: seq<Note>)
    ensures a + b + (c + d) == a + (b + c) + d
  {
  }

  lemma NothingMarked(notes: seq<Note>, data: seq<byte>, i: nat)
    requires i <= |data|
    ensures notes + Bodies(Marked(data, -1, i)) == notes
  {
  }

  lemma Advance(p0: Parser, data: seq<byte>, i: nat, n: nat)
    requires Valid(p0) && i + n <= |data|
    ensures var f := Feed(p0, data[..i]);
            var g := Feed(f.parser, data[i..i + n]);
            Feed(p0, data[..i + n]) == Fed(g.parser, f.notes + g.notes)
  {
    assert data[..i + n] == data[..i] + data[i..i + n];
    FeedConcat(p0, data[..i], data[i..i + n]);
  }

  /** A run of body extends the mark. */
  lemma RunExtendsMark(
    p0: Parser, data: seq<byte>, i: nat, mark: int, calls: seq<Call>, p: Parser, n: nat, q: Parser)
    requires Progress(p0, data, i, mark, calls, p) && Carries(p.state) && 0 < n && i + n <= |data|
    requires Feed(p, data[i..i + n]) == Fed(q, Bodies(data[i..i + n])) && Markable(q.state)
    ensures Progress(p0, data, i + n, if mark < 0 then i else mark, calls, q)
  {
    hide Feed, Step, Bodies, Flat;
    var m := if mark < 0 then i else mark;
    Advance(p0, data, i, n);
    BodiesConcat(Marked(data, mark, i), data[i..i + n]);
    assert Marked(data, m, i + n) == Marked(data, mark, i) + data[i..i + n];
    Assoc(Flat(calls), Bodies(Marked(data, mark, i)), Bodies(data[i..i + n]));
  }

  /** The run that completes a body of known length is called back together with what it follows. */
  lemma RunCompletes(
    p0: Parser, data: seq<byte>, i: nat, mark: int, calls: seq<Call>, p: Parser, n: nat, q: Parser)
    requires Progress(p0, data, i, mark, calls, p) && i + n <= |data|
    requires Feed(p, data[i..i + n]) == Fed(q, Bodies(data[i..i + n]) + [MessageComplete])
    requires q.state.Elsewhere?
    ensures var m := if mark < 0 then i else mark;
            Progress(p0, data, i + n, -1, calls + [OnBody(data[m..i + n])] + [OnMessageComplete], q)
  {
    hide Feed, Step, Bodies, Flat;
    var m := if mark < 0 then i else mark;
    var b := data[m..i + n];
    Advance(p0, data, i, n);
    BodiesConcat(Marked(data, mark, i), data[i..i + n]);
    assert b == Marked(data, mark, i) + data[i..i + n];
    FlatAppend(calls, OnBody(b));
    FlatAppend(calls + [OnBody(b)], OnMessageComplete);
    Regroup(Flat(calls), Bodies(Marked(data, mark, i)), Bodies(data[i..i + n]), [MessageComplete]);
    NothingMarked(Flat(calls + [OnBody(b)] + [OnMessageComplete]), data, i + n);
  }

  lemma FlatSmall(calls: seq<Call>)
    ensures calls == [] ==> Flat(calls) == []
    ensures |calls| == 1 ==> Flat(calls) == NotesOf(calls[0])
    ensures |calls| == 2 ==> Flat(calls) == NotesOf(calls[0]) + NotesOf(calls[1])
  {
    hide NotesOf;
    if |calls| == 1 {
      assert calls[..0] == [];
    } else if |calls| == 2 {
      assert calls[..1][..0] == [];
    }
  }

  lemma {:induction false} FlatConcat(a: seq<Call>, b: seq<Call>)
    ensures Flat(a + b) == Flat(a) + Flat(b)
    decreases |b|
  {
    if b == [] {
      assert a + b == a;
    } else {
      var front, c := b[..|b| - 1], b[|b| - 1];
      assert a + b == (a + front) + [c];
      FlatAppend(a + front, c);
      FlatConcat(a, front);
      Assoc(Flat(a), Flat(front), NotesOf(c));
    }
  }

  /** An octet of framing: what was marked is called back first, if the chunk data just ended. */
  lemma FrameProgress(
    p0: Parser, data: seq<byte>, i: nat, mark: int, calls: seq<Call>, p: Parser, k: seq<Call>, q: Parser)
    requires Progress(p0, data, i, mark, calls, p) && !Carries(p.state) && !Stopped(p) && i < |data|
    requires Step(p, data[i]) == Fed(q, Flat(k)) && q.errno.OK?
    ensures var flushed := if mark < 0 then calls else calls + [OnBody(data[mark..i])];
            Progress(p0, data, i + 1, -1, flushed + k, q)
  {
    hide Feed, Step, Bodies, Flat;
    FrameNotes(p, data[i]);
    var flushed := if mark < 0 then calls else calls + [OnBody(data[mark..i])];
    Advance(p0, data, i, 1);
    FeedOne(p, data, i);
    if mark >= 0 {
      FlatAppend(calls, OnBody(data[mark..i]));
    } else {
      NothingMarked(Flat(calls), data, i);
    }
    FlatConcat(flushed, k);
    NothingMarked(Flat(flushed + k), data, i + 1);
  }

  /** Framing reports no body octet, fails silently, and opens chunk data with chunk_header. */
  lemma FrameNotes(p: Parser, c: byte)
    requires Valid(p) && !Carries(p.state) && !Stopped(p)
    ensures var s := Step(p, c);
            && (!s.parser.errno.OK? ==> s.notes == [])
            && (Markable(s.parser.state) && s.parser.errno.OK? ==> s.notes == [ChunkHeader])
            && (!s.parser.errno.OK? ==> s.parser.state == p.state)
            && (MissingCr(s.parser) ==> p.state.ChunkDataAlmostDone?)
            && (!s.parser.errno.OK? && p.state.ChunkDataAlmostDone? ==> MissingCr(s.parser))
  {
  }

  lemma FeedOne(p: Parser, data: seq<byte>, i: nat)
    requires Valid(p) && i < |data|
    ensures Feed(p, data[i..i + 1]) == Step(p, data[i])
  {
    var one := data[i..i + 1];
    assert one[1..] == [] && one[0] == data[i];
    assert Step(p, data[i]).notes + [] == Step(p, data[i]).notes;
  }

  /** When framing fails nothing more is called back, and only a missing CR loses marked octets. */
  lemma FrameFails(
    p0: Parser, data: seq<byte>, i: nat, mark: int, calls: seq<Call>, p: Parser, k: seq<Call>, q: Parser)
    requires Progress(p0, data, i, mark, calls, p) && !Carries(p.state) && !Stopped(p) && i < |data|
    requires Step(p, data[i]) == Fed(q, Flat(k)) && !q.errno.OK?
    ensures Feed(p0, data).parser == q && Delivered(Feed(p0, data)) == Flat(calls)
  {
    hide Feed, Step, Bodies, Flat;
    FrameNotes(p, data[i]);
    var marked := Marked(data, mark, i);
    Advance(p0, data, i, 1);
    FeedOne(p, data, i);
    assert data == data[..i + 1] + data[i + 1..];
    FeedConcat(p0, data[..i + 1], data[i + 1..]);
    FeedStopped(q, data[i + 1..]);
    var notes := Flat(calls) + Bodies(marked);
    assert notes + [] + [] == notes;
    assert Feed(p0, data) == Fed(q, notes);
    if p.state.ChunkDataAlmostDone? {
      TrailingBodiesOf(Flat(calls), marked);
      assert notes[..|Flat(calls)|] == Flat(calls);
    } else {
      NothingMarked(Flat(calls), data, i);
    }
  }

  /** Once the message is over the model reads no further. */
  lemma StopsHere(p0: Parser, data: seq<byte>, i: nat, calls: seq<Call>, p: Parser)
    requires Progress(p0, data, i, -1, calls, p) && Stopped(p)
    ensures Feed(p0, data) == Fed(p, Flat(calls))
  {
    assert data == data[..i] + data[i..];
    FeedConcat(p0, data[..i], data[i..]);
    FeedStopped(p, data[i..]);
    NothingMarked(Flat(calls), data, i);
    assert Flat(calls) + [] == Flat(calls);
  }
}
