/**
 * Message body framing of the bundled HTTP parser (strict mode, callbacks that return 0) on values:
 * one octet at a time, without marks. Sections 3.3.3 and 4.1 of RFC 7230.
 */
module HttpBody {
  import opened Bytes

  const CR: byte := 13
  const LF: byte := 10
  const U64 := 0x1_0000_0000_0000_0000
  const NO_LENGTH := 0xffff_ffff_ffff_ffff   // ULLONG_MAX: no length given
  const MAX_HEADER := 80 * 1024              // HTTP_MAX_HEADER_SIZE

  datatype State =
    | BodyIdentity | BodyEof
    | ChunkSizeStart | ChunkSize | ChunkParameters | ChunkSizeAlmostDone
    | ChunkData | ChunkDataAlmostDone | ChunkDataDone
    | TrailerStart        // s_header_field_start with F_TRAILING
    | TrailerAlmostDone   // s_headers_almost_done with F_TRAILING
    | Trailer             // inside a trailer field: header grammar, not modelled
    | Elsewhere           // the next message, not modelled

  datatype Errno =
    | OK | INVALID_CHUNK_SIZE | INVALID_CONTENT_LENGTH | STRICT
    | HEADER_OVERFLOW | INVALID_HEADER_TOKEN | INVALID_EOF_STATE

  datatype Parser = Parser(state: State, left: nat, nread: nat, errno: Errno)

  /** What the callbacks report, body octets one by one. */
  datatype Note = Body(b: byte) | ChunkHeader | ChunkComplete | MessageComplete

  datatype Fed = Fed(parser: Parser, notes: seq<Note>)

  /** PARSING_HEADER: octets in these states count against the header size. */
  predicate Counted(st: State) {
    st.ChunkSizeStart? || st.ChunkSize? || st.ChunkParameters? || st.ChunkSizeAlmostDone?
    || st.TrailerStart? || st.TrailerAlmostDone?
  }

  /** The unhex table. Only 128 of its 256 entries are written down; the others are 0. */
  function Unhex(c: byte): (v: int)
    ensures -1 <= v < 16
  {
    if 48 <= c <= 57 then c as int - 48
    else if 97 <= c <= 102 then c as int - 87
    else if 65 <= c <= 70 then c as int - 55
    else if c < 128 then -1
    else 0
  }

  /** The token table in strict mode. */
  predicate Token(c: byte) {
    48 <= c <= 57 || 65 <= c <= 90 || 94 <= c <= 122 || c == 33 || 35 <= c <= 39
    || c == 42 || c == 43 || c == 45 || c == 46 || c == 124 || c == 126
  }

  function Fail(p: Parser, e: Errno): Fed {
    Fed(p.(errno := e), [])
  }

  function Go(p: Parser, st: State): Fed {
    Fed(p.(state := st), [])
  }

  /** End of a chunked message: chunk_complete, then message_complete. */
  function ChunkedDone(p: Parser): Fed {
    Fed(p.(state := Elsewhere), [ChunkComplete, MessageComplete])
  }

  /** The accumulator of the chunk size, 64 bits wide, and the test made after the arithmetic. */
  function SizeDigit(p: Parser, v: nat): Fed {
    var t := (p.left * 16 + v) % U64;
    if (NO_LENGTH - 16) / 16 < p.left then Fail(p, INVALID_CONTENT_LENGTH) else Fed(p.(left := t), [])
  }

  /** The switch over states that read the framing of chunks. */
  function Framing(p: Parser, c: byte): Fed {
    match p.state
    case ChunkSizeStart =>
      if Unhex(c) == -1 then Fail(p, INVALID_CHUNK_SIZE)
      else Fed(p.(left := Unhex(c), state := ChunkSize), [])
    case ChunkSize =>
      if c == CR then Go(p, ChunkSizeAlmostDone)
      else if Unhex(c) >= 0 then SizeDigit(p, Unhex(c))
      else if c == 59 || c == 32 then Go(p, ChunkParameters)
      else Fail(p, INVALID_CHUNK_SIZE)
    case ChunkParameters => if c == CR then Go(p, ChunkSizeAlmostDone) else Fed(p, [])
    case ChunkSizeAlmostDone =>
      if c != LF then Fail(p, STRICT)
      else Fed(p.(nread := 0, state := if p.left == 0 then TrailerStart else ChunkData), [ChunkHeader])
    case ChunkDataAlmostDone => if c != CR then Fail(p, STRICT) else Go(p, ChunkDataDone)
    case ChunkDataDone =>
      if c != LF then Fail(p, STRICT)
      else Fed(p.(nread := 0, state := ChunkSizeStart), [ChunkComplete])
    case TrailerStart =>
      if c == CR then Go(p, TrailerAlmostDone)
      else if c == LF then ChunkedDone(p)
      else if Token(c) then Go(p, Trailer)
      else Fail(p, INVALID_HEADER_TOKEN)
    case TrailerAlmostDone => if c != LF then Fail(p, STRICT) else ChunkedDone(p)
    case _ => Fed(p, [])
  }

  predicate Carries(st: State) {
    st.BodyIdentity? || st.BodyEof? || st.ChunkData?
  }

  /** One octet of body. */
  function Carry(p: Parser, c: byte): Fed
    requires p.left > 0 || p.state.BodyEof?
  {
    if p.state.BodyEof? then Fed(p, [Body(c)])
    else if p.left > 1 then Fed(p.(left := p.left - 1), [Body(c)])
    else if p.state.ChunkData? then Fed(p.(left := 0, state := ChunkDataAlmostDone), [Body(c)])
    else Fed(p.(left := 0, state := Elsewhere), [Body(c), MessageComplete])
  }

  /** What every reachable parser satisfies; the assertions in the body states follow from it. */
  predicate Valid(p: Parser) {
    && p.left < NO_LENGTH
    && (p.state.BodyIdentity? || p.state.ChunkData? ==> p.left > 0)
    && (p.state.ChunkDataAlmostDone? ==> p.left == 0)
    && (p.state.ChunkSizeStart? && p.errno.OK? ==> p.nread == 0)
  }

  /** Nothing is expected any more: in error, or the message is complete. */
  predicate Settled(p: Parser) {
    !p.errno.OK? || p.state.Elsewhere?
  }

  /** The model reads no further. */
  predicate Stopped(p: Parser) {
    Settled(p) || p.state.Trailer?
  }

  /** One octet. */
  function Step(p: Parser, c: byte): (r: Fed)
    requires Valid(p)
    ensures Valid(r.parser)
  {
    if Stopped(p) then Fed(p, [])
    else if Carries(p.state) then Carry(p, c)
    else if Counted(p.state) then
      var q := p.(nread := p.nread + 1);
      if q.nread > MAX_HEADER then Fail(q, HEADER_OVERFLOW) else Framing(q, c)
    else Framing(p, c)
  }

  /** Octet after octet. */
  function Feed(p: Parser, data: seq<byte>): (r: Fed)
    requires Valid(p)
    ensures Valid(r.parser)
    decreases |data|
  {
    if data == [] then Fed(p, [])
    else
      var s := Step(p, data[0]);
      var r := Feed(s.parser, data[1..]);
      Fed(r.parser, s.notes + r.notes)
  }

  /** A call with no data signals the end of input. */
  function Eof(p: Parser): Fed {
    if Settled(p) then Fed(p, [])
    else if p.state.BodyEof? then Fed(p, [MessageComplete])
    else Fail(p, INVALID_EOF_STATE)
  }

  function Bodies(data: seq<byte>): (r: seq<Note>)
    ensures |r| == |data|
  {
    if data == [] then [] else Bodies(data[..|data| - 1]) + [Body(data[|data| - 1])]
  }

  lemma {:induction false} FeedConcat(p: Parser, a: seq<byte>, b: seq<byte>)
    requires Valid(p)
    ensures var f := Feed(p, a);
            var g := Feed(f.parser, b);
            Feed(p, a + b) == Fed(g.parser, f.notes + g.notes)
    decreases |a|
  {
    hide Step;
    if a == [] {
      assert a + b == b;
    } else {
      assert (a + b)[1..] == a[1..] + b;
      var s := Step(p, a[0]);
      FeedConcat(s.parser, a[1..], b);
      var f := Feed(s.parser, a[1..]);
      Assoc(s.notes, f.notes, Feed(f.parser, b).notes);
    }
  }

  lemma {:induction false} BodiesConcat(a: seq<byte>, b: seq<byte>)
    ensures Bodies(a + b) == Bodies(a) + Bodies(b)
    decreases |b|
  {
    if b == [] {
      assert a + b == a;
    } else {
      assert (a + b)[..|a + b| - 1] == a + b[..|b| - 1];
      BodiesConcat(a, b[..|b| - 1]);
      Assoc(Bodies(a), Bodies(b[..|b| - 1]), [Body(b[|b| - 1])]);
    }
  }

  lemma {:induction false} FeedStopped(p: Parser, data: seq<byte>)
    requires Valid(p) && Stopped(p)
    ensures Feed(p, data) == Fed(p, [])
    decreases |data|
  {
    if data != [] {
      FeedStopped(p, data[1..]);
    }
  }

  /**
   * A run of octets that stays inside one body state: what `to_read` skips over in one go. All but
   * the last octet of a body of known length only lower the counter.
   */
  lemma {:induction false} FeedRun(p: Parser, data: seq<byte>)
    requires Valid(p) && p.errno.OK? && Carries(p.state) && (p.state.BodyEof? || |data| < p.left)
    ensures Feed(p, data)
            == Fed(if p.state.BodyEof? then p else p.(left := p.left - |data|), Bodies(data))
    decreases |data|
  {
    hide Step;
    if data != [] {
      var c, rest := data[0], data[1..];
      var q := if p.state.BodyEof? then p else p.(left := p.left - 1);
      StepCarries(p, c);
      FeedRun(q, rest);
      hide Bodies;
      BodiesConcat([c], rest);
      BodiesOne(c);
      assert data == [c] + rest;
    }
  }

  lemma StepCarries(p: Parser, c: byte)
    requires Valid(p) && p.errno.OK? && Carries(p.state) && (p.state.BodyEof? || 1 < p.left)
    ensures Step(p, c) == Fed(if p.state.BodyEof? then p else p.(left := p.left - 1), [Body(c)])
  {
    hide Framing;
  }

  lemma BodiesOne(c: byte)
    ensures Bodies([c]) == [Body(c)]
  {
    assert [c][..0] == [];
  }

  /** ... and the last one ends the state. */
  lemma FeedWhole(p: Parser, data: seq<byte>)
    requires Valid(p) && p.errno.OK? && (p.state.BodyIdentity? || p.state.ChunkData?) && |data| == p.left
    ensures Feed(p, data)
            == if p.state.ChunkData? then Fed(p.(left := 0, state := ChunkDataAlmostDone), Bodies(data))
               else Fed(p.(left := 0, state := Elsewhere), Bodies(data) + [MessageComplete])
  {
    hide Feed, Step, Bodies;
    var front, c, q := data[..|data| - 1], data[|data| - 1], p.(left := 1);
    assert data == front + [c];
    FeedRun(p, front);
    FeedConcat(p, front, [c]);
    LastOctet(q, c);
    BodiesConcat(front, [c]);
    BodiesOne(c);
    Assoc(Bodies(front), [Body(c)], [MessageComplete]);
  }

  lemma LastOctet(p: Parser, c: byte)
    requires Valid(p) && p.errno.OK? && (p.state.BodyIdentity? || p.state.ChunkData?) && p.left == 1
    ensures Feed(p, [c])
            == if p.state.ChunkData? then Fed(p.(left := 0, state := ChunkDataAlmostDone), [Body(c)])
               else Fed(p.(left := 0, state := Elsewhere), [Body(c)] + [MessageComplete])
  {
    hide Framing;
    assert [c][1..] == [];
    assert Step(p, c).notes + [] == Step(p, c).notes;
  }
}
