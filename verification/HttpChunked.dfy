/**
 * The chunk writer of the bundled HTTP library (from_i_to_hex and write_content_chunked) against
 * the body parser: any splitting of the written octets gives the payloads back.
 */
module HttpChunked {
  import opened Bytes
  import opened HttpBody
  import opened HttpParser
  import opened HttpFraming

  const CRLF: seq<byte> := [CR, LF]

  /** The largest chunk size the parser accepts. */
  const MAX_CHUNK := 0xffff_ffff_ffff_ffef

  function HexDigit(v: nat): (c: byte)
    requires v < 16
    ensures Unhex(c) == v
  {
    if v < 10 then (48 + v) as byte else (87 + v) as byte
  }

  /** Lower-case hexadecimal without leading zeros. */
  function Hex(n: nat): (s: seq<byte>)
    ensures s != []
  {
    if n < 16 then [HexDigit(n)] else Hex(n / 16) + [HexDigit(n % 16)]
  }

  /** from_i_to_hex: digits are put in front while the number is shifted down. */
  method FromIToHex(n: nat) returns (ret: seq<byte>)
    ensures ret == Hex(n)
  {
    var m := n / 16;
    ret := [HexDigit(n % 16)];
    while m > 0
      invariant (if m > 0 then Hex(m) else []) + ret == Hex(n)
    {
      ghost var was := ret;
      ret := [HexDigit(m % 16)] + ret;
      if m >= 16 {
        Assoc(Hex(m / 16), [HexDigit(m % 16)], was);
      }
      m := m / 16;
    }
  }

  /** One chunk: size line, payload, CRLF. */
  function Chunk(payload: seq<byte>): seq<byte> {
    Hex(|payload|) + CRLF + (payload + CRLF)
  }

  /** What a content provider does with the sink. */
  datatype Act = Write(payload: seq<byte>) | Done

  const MARKER: seq<byte> := [48] + CRLF + CRLF

  /** What goes to the stream: a chunk per non-empty write, and the done marker. */
  function Emitted(a: Act): seq<byte> {
    if a.Done? then MARKER else if a.payload == [] then [] else Chunk(a.payload)
  }

  function Emit(acts: seq<Act>): seq<byte> {
    if acts == [] then [] else Emit(acts[..|acts| - 1]) + Emitted(acts[|acts| - 1])
  }

  /** data_available after one call of the provider: false after Done, and after an empty write. */
  predicate Available(acts: seq<Act>) {
    acts == [] || (acts[|acts| - 1].Write? && acts[|acts| - 1].payload != [])
  }

  /** The acts of the calls that are made: up to the first that leaves nothing available. */
  function Executed(turns: seq<seq<Act>>): seq<Act> {
    if turns == [] then []
    else if Available(turns[0]) then turns[0] + Executed(turns[1..])
    else turns[0]
  }

  predicate Ends(turns: seq<seq<Act>>) {
    turns != [] && (!Available(turns[0]) || Ends(turns[1..]))
  }

  lemma {:induction false} EmitConcat(a: seq<Act>, b: seq<Act>)
    ensures Emit(a + b) == Emit(a) + Emit(b)
    decreases |b|
  {
    hide Emitted;
    if b == [] {
      assert a + b == a;
    } else {
      var front := b[..|b| - 1];
      assert (a + b)[..|a + b| - 1] == a + front;
      EmitConcat(a, front);
      Assoc(Emit(a), Emit(front), Emitted(b[|b| - 1]));
    }
  }

  /** The write and done closures of the sink over one call of the provider. */
  method Provide(acts: seq<Act>) returns (octets: seq<byte>, available: bool)
    ensures octets == Emit(acts) && available == Available(acts)
  {
    octets, available := [], true;
    var i := 0;
    while i < |acts|
      invariant 0 <= i <= |acts| && octets == Emit(acts[..i]) && available == Available(acts[..i])
    {
      assert acts[..i + 1][..i] == acts[..i];
      match acts[i] {
        case Write(payload) =>
          available := |payload| > 0;
          if payload != [] {
            var size := FromIToHex(|payload|);
            octets := octets + (size + CRLF + (payload + CRLF));
          } else {
            octets := octets + [];
          }
        case Done =>
          available := false;
          octets := octets + MARKER;
      }
      i := i + 1;
    }
    assert acts[..i] == acts;
  }

  /**
   * write_content_chunked with an identity compressor: the provider is called while data is
   * available; when `turns` is used up it returns false.
   */
  method WriteContentChunked(turns: seq<seq<Act>>) returns (stream: seq<byte>, success: bool)
    ensures stream == Emit(Executed(turns)) && success == Ends(turns)
  {
    hide Emit, Available;
    stream, success := [], false;
    var i := 0;
    ghost var done: seq<Act> := [];
    assert turns[0..] == turns && stream == Emit(done) by {
      EmitNothing();
    }
    while i < |turns|
      invariant 0 <= i <= |turns| && stream == Emit(done)
      invariant Executed(turns) == done + Executed(turns[i..]) && Ends(turns) == Ends(turns[i..])
    {
      ghost var rest := turns[i..];
      assert rest[0] == turns[i] && rest[1..] == turns[i + 1..];
      var octets, available := Provide(turns[i]);
      EmitConcat(done, turns[i]);
      stream := stream + octets;
      if !available {
        return stream, true;
      }
      Assoc(done, turns[i], Executed(turns[i + 1..]));
      done := done + turns[i];
      i := i + 1;
    }
    assert done + [] == done;
  }

  lemma EmitNothing()
    ensures Emit([]) == []
  {
  }

  // ------------------------------------------------------------------------------- the size line

  function Pow16(k: nat): (r: nat)
    ensures r >= 1
  {
    if k == 0 then 1 else 16 * Pow16(k - 1)
  }

  lemma {:induction false} HexLength(n: nat, k: nat)
    requires k >= 1 && n < Pow16(k)
    ensures |Hex(n)| <= k
    decreases k
  {
    if n >= 16 {
      assert k > 1;
      HexLength(n / 16, k - 1);
    }
  }

  lemma SixteenDigits()
    ensures Pow16(16) == U64
  {
    assert Pow16(4) == 0x1_0000;
    assert Pow16(8) == 0x1_0000_0000;
    assert Pow16(12) == 0x1_0000_0000_0000;
  }

  predicate AtChunkStart(p: Parser) {
    Valid(p) && p.errno.OK? && p.state.ChunkSizeStart?
  }

  /** The parser in the middle of a size line. */
  function InSize(p: Parser, n: nat, digits: nat): Parser {
    p.(state := ChunkSize, left := n, nread := digits)
  }

  lemma FirstDigit(p: Parser, d: nat)
    requires AtChunkStart(p) && d < 16
    ensures Step(p, HexDigit(d)) == Fed(InSize(p, d, 1), [])
  {
  }

  /** One digit more is taken exactly when the new size is within the limit. */
  lemma NextDigit(p: Parser, n: nat, digits: nat)
    requires p.errno.OK? && n / 16 <= MAX_CHUNK && digits < 16
    ensures Step(InSize(p, n / 16, digits), HexDigit(n % 16)).parser.errno.OK? <==> n <= MAX_CHUNK
    ensures n <= MAX_CHUNK ==>
              Step(InSize(p, n / 16, digits), HexDigit(n % 16)) == Fed(InSize(p, n, digits + 1), [])
  {
    assert n == n / 16 * 16 + n % 16;
  }

  /** Reading hexadecimal digits gives the number back, as long as it is an acceptable size. */
  lemma {:induction false} ReadHex(p: Parser, n: nat)
    requires AtChunkStart(p) && n <= MAX_CHUNK && |Hex(n)| <= 16
    ensures Feed(p, Hex(n)) == Fed(InSize(p, n, |Hex(n)|), [])
    decreases n
  {
    hide Step, Feed;
    if n < 16 {
      FirstDigit(p, n);
      FeedOneOctet(p, HexDigit(n));
    } else {
      var q := InSize(p, n / 16, |Hex(n / 16)|);
      ReadHex(p, n / 16);
      FeedConcat(p, Hex(n / 16), [HexDigit(n % 16)]);
      FeedOneOctet(q, HexDigit(n % 16));
      NextDigit(p, n, |Hex(n / 16)|);
    }
  }

  /** The overflow test turns away exactly the sizes above the limit. */
  lemma SizeAcceptedExactly(p: Parser, n: nat)
    requires AtChunkStart(p) && n < U64
    ensures Feed(p, Hex(n)).parser.errno.OK? <==> n <= MAX_CHUNK
  {
    hide Step, Feed, Pow16;
    SixteenDigits();
    HexLength(n, 16);
    if n <= MAX_CHUNK {
      ReadHex(p, n);
    } else {
      var q := InSize(p, n / 16, |Hex(n / 16)|);
      ReadHex(p, n / 16);
      FeedConcat(p, Hex(n / 16), [HexDigit(n % 16)]);
      FeedOneOctet(q, HexDigit(n % 16));
      NextDigit(p, n, |Hex(n / 16)|);
    }
  }

  /** CR LF behind the digits. */
  lemma EndSizeLine(p: Parser, n: nat, digits: nat)
    requires AtChunkStart(p) && n <= MAX_CHUNK && digits <= 16
    ensures Feed(InSize(p, n, digits), CRLF)
            == Fed(p.(state := if n == 0 then TrailerStart else ChunkData, left := n, nread := 0), [ChunkHeader])
  {
    hide Feed;
    var a := InSize(p, n, digits);
    TwoOctets(a, a.(state := ChunkSizeAlmostDone, nread := digits + 1), CR, LF);
  }

  lemma ReadSizeLine(p: Parser, n: nat)
    requires AtChunkStart(p) && n <= MAX_CHUNK
    ensures Feed(p, Hex(n) + CRLF)
            == Fed(p.(state := if n == 0 then TrailerStart else ChunkData, left := n, nread := 0), [ChunkHeader])
  {
    hide Feed, Step, Hex, Pow16;
    SixteenDigits();
    HexLength(n, 16);
    ReadHex(p, n);
    EndSizeLine(p, n, |Hex(n)|);
    FeedConcat(p, Hex(n), CRLF);
  }

  lemma TwoOctets(a: Parser, b: Parser, x: byte, y: byte)
    requires Valid(a) && Step(a, x) == Fed(b, [])
    ensures Feed(a, [x, y]) == Step(b, y)
  {
    hide Step;
    FeedOneOctet(a, x);
    FeedOneOctet(b, y);
    FeedConcat(a, [x], [y]);
    assert [x, y] == [x] + [y];
    assert [] + Step(b, y).notes == Step(b, y).notes;
  }

  // --------------------------------------------------------------------------------- whole chunks

  function ChunkNotes(payload: seq<byte>): seq<Note> {
    [ChunkHeader] + Bodies(payload) + [ChunkComplete]
  }

  lemma ReadChunk(p: Parser, payload: seq<byte>)
    requires AtChunkStart(p) && 0 < |payload| <= MAX_CHUNK
    ensures Feed(p, Chunk(payload)) == Fed(p.(left := 0, nread := 0), ChunkNotes(payload))
  {
    hide Feed, Step, Bodies, Hex;
    var q := p.(state := ChunkData, left := |payload|, nread := 0);
    ReadSizeLine(p, |payload|);
    ReadPayload(q, payload);
    FeedConcat(p, Hex(|payload|) + CRLF, payload + CRLF);
    Assoc([ChunkHeader], Bodies(payload), [ChunkComplete]);
  }

  lemma ReadPayload(q: Parser, payload: seq<byte>)
    requires Valid(q) && q.errno.OK? && q.state.ChunkData? && q.left == |payload|
    ensures Feed(q, payload + CRLF)
            == Fed(q.(state := ChunkSizeStart, left := 0, nread := 0), Bodies(payload) + [ChunkComplete])
  {
    hide Bodies;
    var a := q.(state := ChunkDataAlmostDone, left := 0);
    FeedWhole(q, payload);
    TwoOctets(a, a.(state := ChunkDataDone), CR, LF);
    FeedConcat(q, payload, CRLF);
  }

  lemma ReadDoneMarker(p: Parser)
    requires AtChunkStart(p)
    ensures Feed(p, MARKER)
            == Fed(p.(state := Elsewhere, left := 0, nread := 2), [ChunkHeader, ChunkComplete, MessageComplete])
  {
    assert Hex(0) == [48];
    var t := p.(state := TrailerStart, left := 0, nread := 0);
    ReadSizeLine(p, 0);
    TwoOctets(t, t.(state := TrailerAlmostDone, nread := 1), CR, LF);
    FeedConcat(p, [48] + CRLF, CRLF);
    assert [ChunkHeader] + [ChunkComplete, MessageComplete] == [ChunkHeader, ChunkComplete, MessageComplete];
  }

  // ------------------------------------------------------------------------------- the round trip

  /** The body: all body octets in order. */
  function BodyOf(notes: seq<Note>): seq<byte> {
    if notes == [] then []
    else BodyOf(notes[..|notes| - 1])
         + (if notes[|notes| - 1].Body? then [notes[|notes| - 1].b] else [])
  }

  function Completions(notes: seq<Note>): nat {
    if notes == [] then 0
    else Completions(notes[..|notes| - 1]) + (if notes[|notes| - 1].MessageComplete? then 1 else 0)
  }

  lemma {:induction false} NotesConcat(a: seq<Note>, b: seq<Note>)
    ensures BodyOf(a + b) == BodyOf(a) + BodyOf(b)
    ensures Completions(a + b) == Completions(a) + Completions(b)
    decreases |b|
  {
    if b == [] {
      assert a + b == a;
    } else {
      assert (a + b)[..|a + b| - 1] == a + b[..|b| - 1];
      NotesConcat(a, b[..|b| - 1]);
    }
  }

  lemma {:induction false} BodyOfBodies(data: seq<byte>)
    ensures BodyOf(Bodies(data)) == data && Completions(Bodies(data)) == 0
    decreases |data|
  {
    if data != [] {
      BodyOfBodies(data[..|data| - 1]);
    }
  }

  lemma OneNote(n: Note)
    requires !n.Body?
    ensures BodyOf([n]) == [] && Completions([n]) == if n.MessageComplete? then 1 else 0
  {
    assert [n][..0] == [];
  }

  lemma ChunkNotesSay(payload: seq<byte>)
    ensures BodyOf(ChunkNotes(payload)) == payload && Completions(ChunkNotes(payload)) == 0
  {
    hide BodyOf, Completions, Bodies;
    OneNote(ChunkHeader);
    OneNote(ChunkComplete);
    BodyOfBodies(payload);
    NotesConcat([ChunkHeader], Bodies(payload));
    NotesConcat([ChunkHeader] + Bodies(payload), [ChunkComplete]);
  }

  lemma MarkerNotesSay()
    ensures var m := [ChunkHeader, ChunkComplete, MessageComplete];
            BodyOf(m) == [] && Completions(m) == 1
  {
    hide BodyOf, Completions;
    OneNote(ChunkHeader);
    OneNote(ChunkComplete);
    OneNote(MessageComplete);
    NotesConcat([ChunkHeader], [ChunkComplete]);
    NotesConcat([ChunkHeader] + [ChunkComplete], [MessageComplete]);
    assert [ChunkHeader, ChunkComplete, MessageComplete] == [ChunkHeader] + [ChunkComplete] + [MessageComplete];
  }

  /** The payloads written before Done, one after the other. */
  function Payload(acts: seq<Act>): seq<byte> {
    if acts == [] then []
    else
      var front := acts[..|acts| - 1];
      Payload(front) + (if Finished(front) || acts[|acts| - 1].Done? then [] else acts[|acts| - 1].payload)
  }

  predicate Finished(acts: seq<Act>) {
    acts != [] && (acts[|acts| - 1].Done? || Finished(acts[..|acts| - 1]))
  }

  predicate SizesOk(acts: seq<Act>) {
    forall a :: a in acts && a.Write? ==> |a.payload| <= MAX_CHUNK
  }

  /** What the parser makes of the written octets: the payloads so far, complete exactly after Done. */
  ghost predicate Reads(p: Parser, acts: seq<Act>, f: Fed) {
    && BodyOf(f.notes) == Payload(acts) && Completions(f.notes) == (if Finished(acts) then 1 else 0)
    && (if Finished(acts) then f.parser.errno.OK? && f.parser.state.Elsewhere? else AtChunkStart(f.parser))
  }

  lemma ReadAct(p: Parser, acts: seq<Act>, a: Act, f: Fed)
    requires Reads(p, acts, f) && Valid(f.parser) && (a.Write? ==> |a.payload| <= MAX_CHUNK)
    ensures var g := Feed(f.parser, Emitted(a));
            Reads(p, acts + [a], Fed(g.parser, f.notes + g.notes))
  {
    hide Feed, Step, BodyOf, Completions, ChunkNotes, Chunk;
    assert (acts + [a])[..|acts|] == acts;
    var g := Feed(f.parser, Emitted(a));
    NotesConcat(f.notes, g.notes);
    if Finished(acts) {
      FeedStopped(f.parser, Emitted(a));
      assert f.notes + [] == f.notes;
    } else if a.Done? {
      ReadDoneMarker(f.parser);
      MarkerNotesSay();
    } else if a.payload == [] {
      FeedNothing(f.parser);
      assert f.notes + [] == f.notes;
    } else {
      ReadChunk(f.parser, a.payload);
      ChunkNotesSay(a.payload);
    }
  }

  /**
   * For every use of the sink: the parser gets exactly the payloads written before Done, and the
   * message completes if and only if Done was called, and then once.
   */
  lemma {:induction false} ReadWritten(p: Parser, acts: seq<Act>)
    requires AtChunkStart(p) && SizesOk(acts)
    ensures Reads(p, acts, Feed(p, Emit(acts)))
    decreases |acts|
  {
    hide Feed, Step, Reads, Emitted;
    if acts == [] {
      assert Reads(p, acts, Fed(p, [])) by {
        ReadNothing(p);
      }
      FeedNothing(p);
    } else {
      var front, a := acts[..|acts| - 1], acts[|acts| - 1];
      ReadWritten(p, front);
      FeedConcat(p, Emit(front), Emitted(a));
      assert a in acts && acts == front + [a];
      ReadAct(p, front, a, Feed(p, Emit(front)));
    }
  }

  lemma ReadNothing(p: Parser)
    requires AtChunkStart(p)
    ensures Reads(p, [], Fed(p, []))
  {
  }

  /**
   * For every provider, and every cutting of what was written into calls in which an empty one
   * does not come before the message is complete: on_body yields the payloads, and
   * on_message_complete fires once, if the provider called Done before it ran out of data.
   */
  lemma ChunkedRoundTrip(p: Parser, turns: seq<seq<Act>>, pieces: seq<seq<byte>>)
    requires AtChunkStart(p) && SizesOk(Executed(turns))
    requires HttpFraming.Joined(pieces) == Emit(Executed(turns))
    ensures Series(p, pieces) == Feed(p, Emit(Executed(turns))) <==> Calm(p, pieces)
    ensures Calm(p, pieces) ==>
              var acts, notes := Executed(turns), Series(p, pieces).notes;
              BodyOf(notes) == Payload(acts) && Completions(notes) == (if Finished(acts) then 1 else 0)
  {
    hide Feed, BodyOf, Completions, Calm, Series;
    ReadWritten(p, Executed(turns));
    SplitIndependent(p, pieces);
  }

  /** In particular: every cutting into non-empty pieces gives back what a provider that called Done wrote. */
  lemma NonEmptyPiecesRoundTrip(p: Parser, turns: seq<seq<Act>>, pieces: seq<seq<byte>>)
    requires AtChunkStart(p) && SizesOk(Executed(turns)) && Finished(Executed(turns))
    requires HttpFraming.Joined(pieces) == Emit(Executed(turns)) && forall i :: 0 <= i < |pieces| ==> pieces[i] != []
    ensures var s := Series(p, pieces);
            && s.parser.errno.OK? && s.parser.state.Elsewhere?
            && BodyOf(s.notes) == Payload(Executed(turns)) && Completions(s.notes) == 1
  {
    hide Feed, BodyOf, Completions, Calm, Series, Finished, Payload;
    NoEmptyIsCalm(p, pieces);
    ChunkedRoundTrip(p, turns, pieces);
    ReadWritten(p, Executed(turns));
  }

  /** An empty write ends the loop: success is reported, but the message never completes. */
  lemma EmptyWriteEndsEarly()
    ensures var turns := [[Write([])], [Write([1]), Done]];
            Ends(turns) && Executed(turns) == [Write([])] && Emit(Executed(turns)) == [] && !Finished(Executed(turns))
  {
    var acts := [Write([])];
    assert acts[..0] == [];
  }

  /** The parser object itself, called piece by piece. */
  method ParseInPieces(h: HttpParser, pieces: seq<seq<byte>>) returns (calls: seq<Call>)
    requires Valid(h.Abs())
    modifies h
    ensures Valid(h.Abs())
    ensures Series(old(h.Abs()), pieces) == Fed(h.Abs(), Flat(calls))
  {
    hide Feed, Delivered, Eof;
    ghost var p := h.Abs();
    calls := [];
    var i := 0;
    assert pieces[0..] == pieces;
    while i < |pieces|
      invariant 0 <= i <= |pieces| && Valid(h.Abs())
      invariant Series(p, pieces) == Fed(Series(h.Abs(), pieces[i..]).parser,
                                         Flat(calls) + Series(h.Abs(), pieces[i..]).notes)
    {
      ghost var q, rest := h.Abs(), pieces[i..];
      assert rest[1..] == pieces[i + 1..];
      var k := h.Execute(pieces[i]);
      FlatConcat(calls, k);
      Assoc(Flat(calls), Flat(k), Series(h.Abs(), rest[1..]).notes);
      calls := calls + k;
      i := i + 1;
    }
    assert Flat(calls) + [] == Flat(calls);
  }
}
