/**
 * The language of chunked bodies (section 4.1 of RFC 7230, without trailer fields): the parser takes
 * exactly these octets, with digits in either case, leading zeros and chunk extensions.
 */
module HttpGrammar {
  import opened Bytes
  import opened HttpBody
  import opened HttpParser
  import opened HttpFraming
  import opened HttpChunked

  // ------------------------------------------------------------------------------------ the tables

  const LOWER := "0123456789abcdef"
  const UPPER := "0123456789ABCDEF"
  const MARKS := "!#$%&'*+-.^_`|~"

  /** The octet is the digit of value `v`, in either case. */
  predicate IsDigit(c: byte, v: nat)
    requires v < 16
  {
    LOWER[v] as int == c as int || UPPER[v] as int == c as int
  }

  /** The unhex table below 128: the value of a digit, and -1 exactly for every other octet. */
  lemma UnhexIsTable(c: byte)
    requires c < 128
    ensures Unhex(c) == -1 <==> forall v :: 0 <= v < 16 ==> !IsDigit(c, v)
    ensures Unhex(c) != -1 ==> IsDigit(c, Unhex(c))
  {
    if Unhex(c) == -1 {
      forall v | 0 <= v < 16
        ensures !IsDigit(c, v)
      {
        DigitOctets(v);
      }
    } else {
      DigitOctets(Unhex(c));
      assert IsDigit(c, Unhex(c));
    }
  }

  /** The table says of every value whether the octet has it. */
  predicate ReadRight(c: byte) {
    forall v :: 0 <= v < 16 ==> (Unhex(c) == v <==> IsDigit(c, v))
  }

  /** An octet is read right if and only if it is below 128; from there on it is taken for the digit 0. */
  lemma UnhexRightExactly(c: byte)
    ensures ReadRight(c) <==> c < 128
    ensures 128 <= c ==> Unhex(c) == 0
  {
    forall v | 0 <= v < 16
      ensures IsDigit(c, v) <==> if v < 10 then c as int == 48 + v else c as int == 87 + v || c as int == 55 + v
    {
      DigitOctets(v);
    }
    if 128 <= c {
      assert !IsDigit(c, 0);
    }
  }

  lemma DigitOctets(v: nat)
    requires v < 16
    ensures LOWER[v] as int == if v < 10 then 48 + v else 87 + v
    ensures UPPER[v] as int == if v < 10 then 48 + v else 55 + v
  {
  }

  /** The strict token table: letters, digits and fifteen marks. */
  lemma TokenIsTable(c: byte)
    ensures Token(c) <==> 48 <= c <= 57 || 65 <= c <= 90 || 97 <= c <= 122
                          || exists i :: 0 <= i < |MARKS| && MARKS[i] as int == c as int
  {
    assert MARKS[0] == '!' && MARKS[1] == '#' && MARKS[2] == '$' && MARKS[3] == '%' && MARKS[4] == '&';
    assert MARKS[5] == '\'' && MARKS[6] == '*' && MARKS[7] == '+' && MARKS[8] == '-' && MARKS[9] == '.';
    assert MARKS[10] == '^' && MARKS[11] == '_' && MARKS[12] == '`' && MARKS[13] == '|' && MARKS[14] == '~';
  }

  // -------------------------------------------------------------------------------------- the digits

  predicate Digits16(ds: seq<byte>) {
    forall i :: 0 <= i < |ds| ==> Unhex(ds[i]) >= 0
  }

  /** The positional value. */
  function Value(ds: seq<byte>): nat
    requires Digits16(ds)
  {
    if ds == [] then 0 else 16 * Value(ds[..|ds| - 1]) + Unhex(ds[|ds| - 1])
  }

  lemma AnyFirstDigit(p: Parser, c: byte)
    requires AtChunkStart(p) && Unhex(c) >= 0
    ensures Step(p, c) == Fed(InSize(p, Unhex(c), 1), [])
  {
  }

  lemma AnyNextDigit(p: Parser, v: nat, digits: nat, c: byte)
    requires p.errno.OK? && v <= MAX_CHUNK && digits < MAX_HEADER && Unhex(c) >= 0
    ensures var n := 16 * v + Unhex(c);
            && (n <= MAX_CHUNK ==> Step(InSize(p, v, digits), c) == Fed(InSize(p, n, digits + 1), []))
            && (n > MAX_CHUNK ==>
                  Step(InSize(p, v, digits), c).parser.errno.INVALID_CONTENT_LENGTH?
                  && Step(InSize(p, v, digits), c).notes == [])
  {
  }

  /** Any digits, in any case and with any leading zeros: their value, or the error exactly above the limit. */
  lemma {:induction false} ReadDigits(p: Parser, ds: seq<byte>)
    requires AtChunkStart(p) && Digits16(ds) && 0 < |ds| <= MAX_HEADER
    ensures Value(ds) <= MAX_CHUNK ==> Feed(p, ds) == Fed(InSize(p, Value(ds), |ds|), [])
    ensures Value(ds) > MAX_CHUNK ==>
              Feed(p, ds).parser.errno.INVALID_CONTENT_LENGTH? && Feed(p, ds).notes == []
    decreases |ds|
  {
    hide Feed, Step, Unhex;
    var front, c := ds[..|ds| - 1], ds[|ds| - 1];
    assert ds == front + [c];
    if front == [] {
      assert ds == [c];
      AnyFirstDigit(p, c);
      FeedOneOctet(p, c);
    } else {
      ReadDigits(p, front);
      FeedConcat(p, front, [c]);
      FeedOneOctet(Feed(p, front).parser, c);
      if Value(front) <= MAX_CHUNK {
        AnyNextDigit(p, Value(front), |front|, c);
      } else {
        FeedStopped(Feed(p, front).parser, [c]);
      }
    }
  }

  // ------------------------------------------------------------------------------------ the size line

  /** A chunk extension: from a semicolon or a space on, anything but CR. */
  predicate Extension(ext: seq<byte>) {
    ext == [] || ((ext[0] == 59 || ext[0] == 32) && forall i :: 0 <= i < |ext| ==> ext[i] != CR)
  }

  predicate LineOk(ds: seq<byte>, ext: seq<byte>) {
    ds != [] && Digits16(ds) && Value(ds) <= MAX_CHUNK && Extension(ext) && |ds| + |ext| + 2 <= MAX_HEADER
  }

  /** The parser inside an extension. */
  function InExt(p: Parser, n: nat, k: nat): Parser {
    p.(state := ChunkParameters, left := n, nread := k)
  }

  lemma StepExt(p: Parser, n: nat, k: nat, c: byte)
    requires p.errno.OK? && n < NO_LENGTH && c != CR && k < MAX_HEADER
    ensures Step(InExt(p, n, k), c) == Fed(InExt(p, n, k + 1), [])
    ensures c == 59 || c == 32 ==> Step(InSize(p, n, k), c) == Fed(InExt(p, n, k + 1), [])
  {
  }

  lemma {:induction false} ReadExt(p: Parser, n: nat, k: nat, ext: seq<byte>)
    requires p.errno.OK? && n < NO_LENGTH && ext != [] && Extension(ext) && k + |ext| <= MAX_HEADER
    ensures Feed(InSize(p, n, k), ext) == Fed(InExt(p, n, k + |ext|), [])
    decreases |ext|
  {
    hide Feed, Step;
    var front, c := ext[..|ext| - 1], ext[|ext| - 1];
    assert ext == front + [c];
    if front == [] {
      assert ext == [c];
      StepExt(p, n, k, c);
      FeedOneOctet(InSize(p, n, k), c);
    } else {
      ReadExt(p, n, k, front);
      FeedConcat(InSize(p, n, k), front, [c]);
      StepExt(p, n, k + |front|, c);
      FeedOneOctet(InExt(p, n, k + |front|), c);
    }
  }

  /** The parser behind a size line that announces n octets. */
  function BehindLine(p: Parser, n: nat): Parser {
    p.(state := if n == 0 then TrailerStart else ChunkData, left := n, nread := 0)
  }

  predicate AtLineEnd(q: Parser, p: Parser, n: nat, k: nat) {
    q == InSize(p, n, k) || q == InExt(p, n, k)
  }

  lemma ReadLineEnd(q: Parser, p: Parser, n: nat, k: nat)
    requires AtLineEnd(q, p, n, k) && p.errno.OK? && n < NO_LENGTH && k + 2 <= MAX_HEADER
    ensures Feed(q, CRLF) == Fed(BehindLine(p, n), [ChunkHeader])
  {
    hide Feed;
    TwoOctets(q, q.(state := ChunkSizeAlmostDone, nread := k + 1), CR, LF);
  }

  lemma ReadLine(p: Parser, ds: seq<byte>, ext: seq<byte>)
    requires AtChunkStart(p) && LineOk(ds, ext)
    ensures Feed(p, ds + ext + CRLF) == Fed(BehindLine(p, Value(ds)), [ChunkHeader])
  {
    hide Feed, Step;
    var n := Value(ds);
    ReadDigits(p, ds);
    FeedConcat(p, ds, ext);
    if ext == [] {
      assert ds + ext == ds;
    } else {
      ReadExt(p, n, |ds|, ext);
    }
    var q := if ext == [] then InSize(p, n, |ds|) else InExt(p, n, |ds| + |ext|);
    assert Feed(p, ds + ext) == Fed(q, []);
    ReadLineEnd(q, p, n, |ds| + |ext|);
    FeedConcat(p, ds + ext, CRLF);
  }

  // -------------------------------------------------------------------------------------- the grammar

  /** A single octet from 128 on passes for a last chunk. */
  lemma HighOctetEndsMessage(p: Parser, c: byte)
    requires AtChunkStart(p) && 128 <= c
    ensures Completes(p, [c] + CRLF + CRLF)
  {
    hide Feed, Completes, Message;
    var ds, e := [c], End([c], [], false);
    assert ds[..0] == [] && Value(ds) == 0;
    assert ds + [] == ds;
    ReadEnd(p, e);
  }

  /** A chunk as it may be written. */
  datatype Item = Item(digits: seq<byte>, ext: seq<byte>, payload: seq<byte>)

  predicate ItemOk(it: Item) {
    LineOk(it.digits, it.ext) && 0 < |it.payload| == Value(it.digits)
  }

  function Written(it: Item): seq<byte> {
    it.digits + it.ext + CRLF + (it.payload + CRLF)
  }

  /** The last chunk and the end of the message: CRLF, or LF alone. */
  datatype End = End(digits: seq<byte>, ext: seq<byte>, bare: bool)

  predicate EndOk(e: End) {
    LineOk(e.digits, e.ext) && Value(e.digits) == 0
  }

  function EndWritten(e: End): seq<byte> {
    e.digits + e.ext + CRLF + (if e.bare then [LF] else CRLF)
  }

  predicate ItemsOk(items: seq<Item>) {
    forall i :: 0 <= i < |items| ==> ItemOk(items[i])
  }

  /** A chunked body. */
  function Message(items: seq<Item>, e: End): seq<byte> {
    if items == [] then EndWritten(e) else Written(items[0]) + Message(items[1..], e)
  }

  function Content(items: seq<Item>): seq<byte> {
    if items == [] then [] else items[0].payload + Content(items[1..])
  }

  predicate Completes(p: Parser, data: seq<byte>)
    requires Valid(p)
  {
    Feed(p, data).parser.errno.OK? && Feed(p, data).parser.state.Elsewhere?
  }

  lemma ReadItem(p: Parser, it: Item)
    requires AtChunkStart(p) && ItemOk(it)
    ensures Feed(p, Written(it)) == Fed(p.(left := 0, nread := 0), ChunkNotes(it.payload))
  {
    hide Feed, Step, Bodies;
    var q := BehindLine(p, |it.payload|);
    ReadLine(p, it.digits, it.ext);
    ReadPayload(q, it.payload);
    FeedConcat(p, it.digits + it.ext + CRLF, it.payload + CRLF);
    Assoc([ChunkHeader], Bodies(it.payload), [ChunkComplete]);
  }

  lemma TrailerEnds(t: Parser, bare: bool)
    requires Valid(t) && t.errno.OK? && t.state.TrailerStart? && t.nread == 0
    ensures var f := Feed(t, if bare then [LF] else CRLF);
            f.parser.errno.OK? && f.parser.state.Elsewhere? && f.notes == [ChunkComplete, MessageComplete]
  {
    hide Feed;
    if bare {
      FeedOneOctet(t, LF);
    } else {
      TwoOctets(t, t.(state := TrailerAlmostDone, nread := 1), CR, LF);
    }
  }

  lemma ReadEnd(p: Parser, e: End)
    requires AtChunkStart(p) && EndOk(e)
    ensures Completes(p, EndWritten(e)) && Feed(p, EndWritten(e)).notes == [ChunkHeader, ChunkComplete, MessageComplete]
  {
    hide Feed, Step;
    ReadLine(p, e.digits, e.ext);
    TrailerEnds(BehindLine(p, 0), e.bare);
    FeedConcat(p, e.digits + e.ext + CRLF, if e.bare then [LF] else CRLF);
    assert [ChunkHeader] + [ChunkComplete, MessageComplete] == [ChunkHeader, ChunkComplete, MessageComplete];
  }

  /** Everything the grammar produces is taken, with exactly its content, and completes once. */
  lemma {:induction false} ReadMessage(p: Parser, items: seq<Item>, e: End)
    requires AtChunkStart(p) && ItemsOk(items) && EndOk(e)
    ensures Completes(p, Message(items, e))
    ensures var notes := Feed(p, Message(items, e)).notes;
            BodyOf(notes) == Content(items) && Completions(notes) == 1
    decreases |items|
  {
    hide Feed, Step, BodyOf, Completions, ChunkNotes, Written, EndWritten, ItemOk, EndOk;
    if items == [] {
      ReadEnd(p, e);
      MarkerNotesSay();
    } else {
      var q, it := p.(left := 0, nread := 0), items[0];
      ReadItem(p, it);
      ReadMessage(q, items[1..], e);
      FeedConcat(p, Written(it), Message(items[1..], e));
      ChunkNotesSay(it.payload);
      NotesConcat(ChunkNotes(it.payload), Feed(q, Message(items[1..], e)).notes);
    }
  }

  /** Which error an octet of framing raises, and when. */
  lemma StepFailsExactly(p: Parser, c: byte)
    requires Valid(p) && !Stopped(p) && !Carries(p.state)
    ensures var e := Step(p, c).parser.errno;
            if Counted(p.state) && p.nread >= MAX_HEADER then e == HEADER_OVERFLOW
            else match p.state
              case ChunkSizeStart => e == if Unhex(c) < 0 then INVALID_CHUNK_SIZE else OK
              case ChunkSize =>
                e == if Unhex(c) >= 0 then (if 16 * p.left + Unhex(c) > MAX_CHUNK then INVALID_CONTENT_LENGTH else OK)
                     else if c == CR || c == 59 || c == 32 then OK
                     else INVALID_CHUNK_SIZE
              case ChunkSizeAlmostDone => e == if c == LF then OK else STRICT
              case ChunkDataAlmostDone => e == if c == CR then OK else STRICT
              case ChunkDataDone => e == if c == LF then OK else STRICT
              case TrailerStart => e == if c == CR || c == LF || Token(c) then OK else INVALID_HEADER_TOKEN
              case TrailerAlmostDone => e == if c == LF then OK else STRICT
              case _ => e == OK
  {
  }

  // ------------------------------------------------------------------------- and nothing else is taken

  lemma CompletesSplit(p: Parser, a: seq<byte>, b: seq<byte>)
    requires Valid(p)
    ensures Completes(p, a + b) <==> Completes(Feed(p, a).parser, b)
  {
    hide Feed;
    FeedConcat(p, a, b);
  }

  lemma CompletesStep(p: Parser, data: seq<byte>)
    requires Valid(p) && data != []
    ensures Completes(p, data) <==> Completes(Step(p, data[0]).parser, data[1..])
  {
    hide Step;
  }

  lemma CompletesNothing(p: Parser)
    requires Valid(p)
    ensures Completes(p, []) <==> p.errno.OK? && p.state.Elsewhere?
  {
  }

  /** A parser that has failed, or is in a trailer field, does not complete. */
  lemma NeverCompletes(p: Parser, data: seq<byte>)
    requires Valid(p) && (!p.errno.OK? || p.state.Trailer?)
    ensures !Completes(p, data)
  {
    FeedStopped(p, data);
  }

  /** How many hexadecimal digits stand in front. */
  function Lead(data: seq<byte>): (m: nat)
    ensures m <= |data| && Digits16(data[..m]) && (m < |data| ==> Unhex(data[m]) < 0)
  {
    if data == [] || Unhex(data[0]) < 0 then 0
    else
      var m := Lead(data[1..]);
      assert data[..m + 1] == [data[0]] + data[1..][..m];
      m + 1
  }

  /** Where the first CR stands. */
  function FirstCr(data: seq<byte>): (e: nat)
    ensures e <= |data| && (forall i :: 0 <= i < e ==> data[i] != CR) && (e < |data| ==> data[e] == CR)
  {
    if data == [] || data[0] == CR then 0 else 1 + FirstCr(data[1..])
  }

  /** CR at the end of the line: LF has to follow, and the line must not be too long. */
  lemma LineEndFound(q: Parser, p: Parser, n: nat, k: nat, r: seq<byte>)
    requires AtLineEnd(q, p, n, k) && p.errno.OK? && n < NO_LENGTH && r != [] && r[0] == CR && Completes(q, r)
    ensures k + 2 <= MAX_HEADER && |r| >= 2 && r[1] == LF
  {
    hide Feed, Completes;
    CompletesStep(q, r);
    var a, b := q.(state := ChunkSizeAlmostDone, nread := k + 1), r[1..];
    if k + 1 > MAX_HEADER {
      NeverCompletes(Step(q, CR).parser, b);
    } else if b == [] {
      CompletesNothing(a);
    } else {
      CompletesStep(a, b);
      if k + 2 > MAX_HEADER || b[0] != LF {
        NeverCompletes(Step(a, b[0]).parser, b[1..]);
      }
    }
  }

  lemma StepNoExtension(p: Parser, n: nat, k: nat, c: byte)
    requires p.errno.OK? && n < NO_LENGTH && Unhex(c) < 0 && c != CR && (k >= MAX_HEADER || (c != 59 && c != 32))
    ensures !Step(InSize(p, n, k), c).parser.errno.OK?
  {
  }

  lemma StepExtTooLong(p: Parser, n: nat, k: nat, c: byte)
    requires p.errno.OK? && n < NO_LENGTH && k >= MAX_HEADER
    ensures !Step(InExt(p, n, k), c).parser.errno.OK?
  {
  }

  /** Behind the digits comes an extension or the end of the line. */
  lemma ExtensionFound(p: Parser, n: nat, k: nat, r: seq<byte>) returns (ext: seq<byte>)
    requires p.errno.OK? && n < NO_LENGTH && k <= MAX_HEADER && (r != [] ==> Unhex(r[0]) < 0)
    requires Completes(InSize(p, n, k), r)
    ensures Extension(ext) && k + |ext| + 2 <= MAX_HEADER
    ensures |ext| + 2 <= |r| && r[..|ext|] == ext && r[|ext|] == CR && r[|ext| + 1] == LF
  {
    hide Feed, Step, Completes, Unhex;
    var q := InSize(p, n, k);
    if r == [] {
      CompletesNothing(q);
    }
    var e := FirstCr(r);
    ext := r[..e];
    if e == 0 {
      LineEndFound(q, p, n, k, r);
    } else {
      if k >= MAX_HEADER || (r[0] != 59 && r[0] != 32) {
        StepNoExtension(p, n, k, r[0]);
        CompletesStep(q, r);
        NeverCompletes(Step(q, r[0]).parser, r[1..]);
      }
      var m := Min(e, MAX_HEADER - k);
      var part, rest := r[..m], r[m..];
      assert r == part + rest && part[0] == r[0];
      ReadExt(p, n, k, part);
      CompletesSplit(q, part, rest);
      var x := InExt(p, n, k + m);
      if rest == [] {
        CompletesNothing(x);
      } else if m < e {
        StepExtTooLong(p, n, k + m, rest[0]);
        CompletesStep(x, rest);
        NeverCompletes(Step(x, rest[0]).parser, rest[1..]);
      } else {
        LineEndFound(x, p, n, k + e, rest);
      }
    }
  }

  lemma StepTooManyDigits(p: Parser, n: nat, c: byte)
    requires p.errno.OK? && n < NO_LENGTH
    ensures !Step(InSize(p, n, MAX_HEADER), c).parser.errno.OK?
  {
  }

  lemma StepNoDigit(p: Parser, c: byte)
    requires AtChunkStart(p) && Unhex(c) < 0
    ensures !Step(p, c).parser.errno.OK?
  {
  }

  /** The line starts with digits, not too many, of an acceptable value. */
  lemma DigitsFound(p: Parser, data: seq<byte>) returns (ds: seq<byte>)
    requires AtChunkStart(p) && Completes(p, data)
    ensures ds != [] && Digits16(ds) && |ds| <= |data| && data[..|ds|] == ds && |ds| <= MAX_HEADER
    ensures |ds| < |data| ==> Unhex(data[|ds|]) < 0
    ensures Value(ds) <= MAX_CHUNK && Completes(InSize(p, Value(ds), |ds|), data[|ds|..])
  {
    hide Feed, Step, Completes, Unhex;
    var m := Lead(data);
    if data == [] {
      CompletesNothing(p);
    } else if m == 0 {
      StepNoDigit(p, data[0]);
      CompletesStep(p, data);
      NeverCompletes(Step(p, data[0]).parser, data[1..]);
    }
    var k := Min(m, MAX_HEADER);
    ds := data[..k];
    var rest := data[k..];
    assert data == ds + rest;
    assert Digits16(ds) by {
      DigitsPrefix(data[..m], k);
      assert data[..m][..k] == ds;
    }
    ReadDigits(p, ds);
    CompletesSplit(p, ds, rest);
    if Value(ds) > MAX_CHUNK {
      NeverCompletes(Feed(p, ds).parser, rest);
    } else if k < m {
      var q := InSize(p, Value(ds), k);
      StepTooManyDigits(p, Value(ds), rest[0]);
      CompletesStep(q, rest);
      NeverCompletes(Step(q, rest[0]).parser, rest[1..]);
    }
  }

  lemma DigitsPrefix(ds: seq<byte>, k: nat)
    requires Digits16(ds) && k <= |ds|
    ensures Digits16(ds[..k])
  {
  }

  /** A whole size line, and what is left of the input behind it. */
  lemma LineFound(p: Parser, data: seq<byte>) returns (ds: seq<byte>, ext: seq<byte>, rest: seq<byte>)
    requires AtChunkStart(p) && Completes(p, data)
    ensures LineOk(ds, ext) && data == ds + ext + CRLF + rest
    ensures Completes(BehindLine(p, Value(ds)), rest)
  {
    hide Feed, Step, Completes, Unhex;
    ds := DigitsFound(p, data);
    var r := data[|ds|..];
    ext := ExtensionFound(p, Value(ds), |ds|, r);
    rest := r[|ext| + 2..];
    assert r == ext + CRLF + rest;
    assert data == ds + r;
    assert data == ds + ext + CRLF + rest;
    ReadLine(p, ds, ext);
    CompletesSplit(p, ds + ext + CRLF, rest);
  }

  /** Behind the last chunk: CRLF or LF. */
  lemma EndFound(t: Parser, r: seq<byte>) returns (bare: bool)
    requires Valid(t) && t.errno.OK? && t.state.TrailerStart? && t.nread == 0 && Completes(t, r)
    ensures var end := if bare then [LF] else CRLF; |end| <= |r| && r[..|end|] == end
  {
    hide Feed, Completes;
    if r == [] {
      CompletesNothing(t);
    }
    CompletesStep(t, r);
    bare := r[0] == LF;
    if !bare {
      if r[0] != CR {
        NeverCompletes(Step(t, r[0]).parser, r[1..]);
      }
      var a, b := t.(state := TrailerAlmostDone, nread := 1), r[1..];
      if b == [] {
        CompletesNothing(a);
      }
      CompletesStep(a, b);
      if b[0] != LF {
        NeverCompletes(Step(a, b[0]).parser, b[1..]);
      }
    }
  }

  /** Too little for the payload. */
  lemma PayloadWhole(q: Parser, r: seq<byte>)
    requires Valid(q) && q.errno.OK? && q.state.ChunkData? && |r| < q.left
    ensures !Completes(q, r)
  {
    hide Feed, Bodies;
    FeedRun(q, r);
  }

  /** Behind the payload: CRLF, and the next chunk. */
  lemma PayloadEndFound(a: Parser, r: seq<byte>)
    requires Valid(a) && a.errno.OK? && a.state.ChunkDataAlmostDone? && Completes(a, r)
    ensures 2 <= |r| && r[0] == CR && r[1] == LF && Completes(a.(state := ChunkSizeStart, nread := 0), r[2..])
  {
    hide Feed, Completes;
    if r == [] {
      CompletesNothing(a);
    }
    CompletesStep(a, r);
    if r[0] != CR {
      NeverCompletes(Step(a, r[0]).parser, r[1..]);
    }
    var b, rest := a.(state := ChunkDataDone), r[1..];
    if rest == [] {
      CompletesNothing(b);
    }
    CompletesStep(b, rest);
    if rest[0] != LF {
      NeverCompletes(Step(b, rest[0]).parser, rest[1..]);
    }
    assert rest[1..] == r[2..];
  }

  /** Behind a size line: the payload, whole, and CRLF. */
  lemma PayloadFound(q: Parser, r: seq<byte>)
    requires Valid(q) && q.errno.OK? && q.state.ChunkData? && Completes(q, r)
    ensures q.left + 2 <= |r| && r[q.left] == CR && r[q.left + 1] == LF
    ensures Completes(q.(state := ChunkSizeStart, left := 0, nread := 0), r[q.left + 2..])
  {
    hide Feed, Completes, Bodies, Step;
    if |r| < q.left {
      PayloadWhole(q, r);
    }
    var run, rest := r[..q.left], r[q.left..];
    assert r == run + rest;
    AtChunkEnd(q, run);
    CompletesSplit(q, run, rest);
    PayloadEndFound(q.(left := 0, state := ChunkDataAlmostDone), rest);
    assert rest[2..] == r[q.left + 2..];
  }

  /** Whatever completes was written by the grammar. */
  lemma {:induction false} MessageFound(p: Parser, data: seq<byte>)
    returns (items: seq<Item>, e: End, rest: seq<byte>)
    requires AtChunkStart(p) && Completes(p, data)
    ensures ItemsOk(items) && EndOk(e) && data == Message(items, e) + rest
    decreases |data|
  {
    hide Feed, Step, Completes, Unhex, Value;
    var ds, ext, r := LineFound(p, data);
    var line := ds + ext + CRLF;
    if Value(ds) == 0 {
      var bare := EndFound(BehindLine(p, 0), r);
      items, e := [], End(ds, ext, bare);
      var end := if bare then [LF] else CRLF;
      rest := r[|end|..];
      assert r == end + rest;
      Assoc(line, end, rest);
    } else {
      var n := Value(ds);
      PayloadFound(BehindLine(p, n), r);
      var it, tail := Item(ds, ext, r[..n]), r[n + 2..];
      assert r == r[..n] + CRLF + tail;
      Assoc(line, it.payload + CRLF, tail);
      var more;
      more, e, rest := MessageFound(p.(left := 0, nread := 0), tail);
      items := [it] + more;
      assert items[1..] == more;
      Assoc(Written(it), Message(more, e), rest);
    }
  }

  /** A message of the grammar at the front of the input. */
  ghost predicate InLanguage(data: seq<byte>) {
    exists items, e, rest :: ItemsOk(items) && EndOk(e) && data == Message(items, e) + rest
  }

  /** The parser completes a chunked body if and only if the input starts with one. */
  lemma AcceptsExactly(p: Parser, data: seq<byte>)
    requires AtChunkStart(p)
    ensures Completes(p, data) <==> InLanguage(data)
  {
    hide Feed, Completes, Message, ItemsOk, EndOk;
    if Completes(p, data) {
      var items, e, rest := MessageFound(p, data);
    }
    if InLanguage(data) {
      var items, e, rest :| ItemsOk(items) && EndOk(e) && data == Message(items, e) + rest;
      MessageTaken(p, items, e, rest);
    }
  }

  /** ... with exactly its content, whatever follows. */
  lemma MessageTaken(p: Parser, items: seq<Item>, e: End, rest: seq<byte>)
    requires AtChunkStart(p) && ItemsOk(items) && EndOk(e)
    ensures var f := Feed(p, Message(items, e) + rest);
            Completes(p, Message(items, e) + rest) && BodyOf(f.notes) == Content(items) && Completions(f.notes) == 1
  {
    hide Feed, Message, ItemsOk, EndOk, BodyOf, Completions;
    var m := Message(items, e);
    ReadMessage(p, items, e);
    FeedConcat(p, m, rest);
    FeedStopped(Feed(p, m).parser, rest);
    assert Feed(p, m).notes + [] == Feed(p, m).notes;
  }
}
