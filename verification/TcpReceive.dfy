/**
 * The receive path of tapip on values: tcp_recv_text, tcp_segment_reass and tcp_write_buf.
 * Sequence numbers are naturals: below 2^32 the unsigned comparisons of the source are these.
 */
module TcpReceive {
  import opened Wrappers
  import opened Bytes

  const DEFAULT_WINDOW := 4096

  /** Segment text: `data` occupies the sequence numbers start .. End()-1. */
  datatype Text = Text(start: nat, data: seq<byte>) {
    function End(): nat {
      start + |data|
    }

    predicate Has(x: int) {
      start <= x < End()
    }
  }

  datatype Ring = NoRing | Ring(data: seq<byte>, size: nat)

  /** The receive half of struct tcp_sock. */
  datatype Rx = Rx(
    nxt: nat,            // rcv_nxt
    wnd: nat,            // rcv_wnd
    ring: Ring,          // rcv_buf
    queue: seq<Text>,    // rcv_reass
    push: bool,          // TCP_F_PUSH
    ackNow: bool,        // TCP_F_ACKNOW
    ackDelay: bool       // TCP_F_ACKDELAY
  ) {
    /** The octets waiting for the user. */
    function Pending(): seq<byte> {
      if ring.NoRing? then [] else ring.data
    }

    /** The window field is the free space of the ring; without a ring it is the next ring's size. */
    predicate WindowOk() {
      match ring
      case NoRing => true
      case Ring(data, size) => 1 <= size && |data| <= size && wnd == size - |data|
    }

    /** tcp_write_buf may be called: the ring exists or can be allocated. */
    predicate Writable() {
      WindowOk() && (ring.NoRing? ==> wnd >= 1)
    }
  }

  /** What a handler leaves behind, or the end of what the model describes. */
  datatype Outcome =
    | Fine(rx: Rx, start: nat)  // `start` is seg->seq as the handler left it
    | Abort                     // an assert() failed, or a length wrapped below 0

  /** ADJACENT_SEGMENT_HEAD: drop what lies before `n`; None when nothing is left. */
  function TrimHead(s: Text, n: nat): Option<Text> {
    if n <= s.start then Some(s)
    else if |s.data| <= n - s.start then None
    else Some(Text(n, s.data[n - s.start..]))
  }

  /** The queue with the segment in its place, or the queue of a segment that adds nothing. */
  datatype Placed =
    | Put(queue: seq<Text>, start: nat)
    | Skip(queue: seq<Text>, start: nat)
    | Wrap  // the new unsigned length wraps below 0 and reaches beyond the segment in memory

  /** The second loop and the insertion: delete covered texts, trim the tail, insert. */
  function Absorb(t: Text, q: seq<Text>): Placed {
    if q == [] then Put([t], t.start)
    else if t.End() < q[0].End() then
      if t.End() <= q[0].start then Put([t] + q, t.start)
      else if q[0].start < t.start then Wrap
      else if q[0].start == t.start then Skip(q, t.start)
      else Put([Text(t.start, t.data[..q[0].start - t.start])] + q, t.start)
    else Absorb(t, q[1..])
  }

  /** `p` with a queued text in front that the search has passed. */
  function Behind(head: Text, p: Placed): Placed {
    match p
    case Put(q, start) => Put([head] + q, start)
    case Skip(q, start) => Skip([head] + q, start)
    case Wrap => Wrap
  }

  /** `p` behind texts that the search has passed. */
  function AllBehind(heads: seq<Text>, p: Placed): Placed {
    match p
    case Put(q, start) => Put(heads + q, start)
    case Skip(q, start) => Skip(heads + q, start)
    case Wrap => Wrap
  }

  /**
   * The first loop: find the first text that starts above the segment and trim the segment
   * against the text before it, which ends at `prevEnd`. Past the last text nothing is trimmed.
   */
  function Place(prevEnd: nat, q: seq<Text>, s: Text): Placed
    decreases |q|
  {
    if q == [] then Put([s], s.start)
    else if s.start < q[0].start then
      match TrimHead(s, prevEnd)
      case None => Skip(q, s.start)
      case Some(t) => Absorb(t, q)
    else Behind(q[0], Place(q[0].End(), q[1..], s))
  }

  function WriteLen(r: Rx, data: seq<byte>): nat
    requires r.Writable()
  {
    Min(r.wnd, |data|)
  }

  /** tcp_write_buf: allocate on first use, append what fits, advance nxt, shrink the window. */
  function WriteBuf(r: Rx, data: seq<byte>): (r': Rx)
    requires r.Writable()
    ensures r'.Writable() && r.nxt <= r'.nxt <= r.nxt + |data| && r'.nxt + r'.wnd == r.nxt + r.wnd
    ensures r'.wnd == 0 || r'.nxt == r.nxt + |data|
    ensures r'.Pending() == r.Pending() + data[..r'.nxt - r.nxt]
    ensures r'.queue == r.queue
  {
    var n := WriteLen(r, data);
    var size := if r.ring.NoRing? then r.wnd else r.ring.size;
    r.(ring := Ring(r.Pending() + data[..n], size), wnd := r.wnd - n, nxt := r.nxt + n)
  }

  /** The third loop: hand over queued text while it continues the stream. */
  function Drain(r: Rx, got: nat): Option<(Rx, nat)>
    requires r.Writable()
    decreases |r.queue|
  {
    if r.queue == [] || r.queue[0].start > r.nxt then Some((r, got))
    else if r.queue[0].start != r.nxt then None  // assert(trh->seq == tsk->rcv_nxt)
    else
      var n := WriteLen(r, r.queue[0].data);
      var r' := WriteBuf(r, r.queue[0].data);
      if n == 0 then Some((r', got)) else Drain(r'.(queue := r.queue[1..]), got + n)
  }

  /**
   * tcp_segment_reass. `stray` is what prev->seq + prev->len reads through the list head when the
   * segment goes before every queued text (fields of the socket, not a queued text).
   */
  function Reass(r: Rx, s: Text, psh: bool, stray: nat): Outcome
    requires r.Writable()
  {
    match Place(stray, r.queue, s)
    case Wrap => Abort
    case Skip(q, start) => Fine(r.(queue := q), start)
    case Put(q, start) =>
      match Drain(r.(queue := q), 0)
      case None => Abort
      case Some((r', got)) => Fine(r'.(push := r'.push || (got > 0 && psh)), start)
  }

  /** tcp_recv_text. */
  function RecvText(r: Rx, s: Text, psh: bool, stray: nat): Outcome
    requires r.WindowOk()
  {
    if r.wnd == 0 then Fine(r, s.start) else
    match TrimHead(s, r.nxt)
    case None => Fine(r, s.start)
    case Some(t) =>
      if r.nxt == t.start && r.queue == [] then
        var n := WriteLen(r, t.data);
        var r' := WriteBuf(r, t.data);
        Fine(r'.(push := r.push || (n > 0 && psh), ackDelay := true), t.start)
      else
        match Reass(r, t, psh, stray)
        case Abort => Abort
        case Fine(r', start) => Fine(r'.(ackNow := true), start)
  }

  function ReadLen(r: Rx, n: nat): nat {
    Min(|r.Pending()|, n)
  }

  /** One turn of the loop in tcp_recv_buf, none if nothing is asked for: take up to `n` octets and reopen the window. */
  function ReadBuf(r: Rx, n: nat): (r': Rx)
    requires r.WindowOk()
    ensures r'.WindowOk()
    ensures r.Pending()[..ReadLen(r, n)] + r'.Pending() == r.Pending()
    ensures |r'.Pending()| == if n <= |r.Pending()| then |r.Pending()| - n else 0
    ensures r'.push <==> r.push && (n == 0 || r'.Pending() != [])
  {
    var k := ReadLen(r, n);
    var r' := if r.ring.NoRing? then r
              else r.(ring := r.ring.(data := r.ring.data[k..]), wnd := r.wnd + k);
    if n > 0 && r'.Pending() == [] then r'.(push := false) else r'
  }

  // ---------------------------------------------------------------- what the queue must satisfy

  /** Pairwise disjoint texts in ascending order, none below `lo`; a text may be blank. */
  predicate Ordered(lo: nat, q: seq<Text>)
    decreases |q|
  {
    q == [] || (lo <= q[0].start && Ordered(q[0].End(), q[1..]))
  }

  /** A text without octets is queued at `e`. */
  predicate Blank(q: seq<Text>, e: nat) {
    q != [] && (q[0] == Text(e, []) || Blank(q[1..], e))
  }

  ghost predicate NoBlanks(q: seq<Text>) {
    forall e :: !Blank(q, e)
  }

  /** Ordered, and no text is blank. */
  predicate Sorted(lo: nat, q: seq<Text>)
    decreases |q|
  {
    q == [] || (lo <= q[0].start && |q[0].data| > 0 && Sorted(q[0].End(), q[1..]))
  }

  predicate Covers(q: seq<Text>, x: int) {
    q != [] && (q[0].Has(x) || Covers(q[1..], x))
  }

  /** No text reaches beyond `hi`. */
  predicate Upto(q: seq<Text>, hi: nat) {
    q == [] || (q[0].End() <= hi && Upto(q[1..], hi))
  }

  predicate Slice(t: Text, base: nat, stream: seq<byte>) {
    base <= t.start && t.End() <= base + |stream|
    && t.data == stream[t.start - base..t.End() - base]
  }

  predicate Slices(q: seq<Text>, base: nat, stream: seq<byte>) {
    q == [] || (Slice(q[0], base, stream) && Slices(q[1..], base, stream))
  }

  /** Delivered or queued. */
  predicate Have(r: Rx, x: int) {
    x < r.nxt || Covers(r.queue, x)
  }

  /** Nothing deliverable is left waiting. */
  predicate Drained(r: Rx) {
    r.queue != [] ==> r.nxt < r.queue[0].start
  }

  /** A blank text has come to the head of the queue. */
  predicate Stuck(r: Rx) {
    r.WindowOk() && r.queue != [] && r.queue[0] == Text(r.nxt, [])
  }

  /** `out` has been read by the user; `stream` starts at sequence number `base`. */
  predicate Streams(r: Rx, base: nat, stream: seq<byte>, out: seq<byte>) {
    && base <= r.nxt <= base + |stream|
    && r.WindowOk() && Ordered(r.nxt, r.queue) && Slices(r.queue, base, stream)
    && out + r.Pending() == stream[..r.nxt - base]
  }

  // --------------------------------------------------- what a caller can check about a segment

  /** The segment goes before every queued text; only then is the list head read. */
  predicate Front(q: seq<Text>, t: Text) {
    q != [] && t.start < q[0].start
  }

  /** The one text a segment is never compared with: the last, when it starts at or after it. */
  predicate StartsInLast(q: seq<Text>, t: Text) {
    q != [] && q[|q| - 1].Has(t.start)
  }

  /** Trimming leaves nothing: the segment lies below the stray number or in a text but the last. */
  predicate Spent(q: seq<Text>, t: Text, stray: nat) {
    if Front(q, t) then t.start < stray && t.End() <= stray
    else exists i :: 0 <= i < |q| - 1 && q[i].Has(t.start) && t.End() <= q[i].End()
  }

  /** The queue stays ordered. */
  predicate Safe(q: seq<Text>, t: Text, stray: nat) {
    && !StartsInLast(q, t)
    && (Front(q, t) ==> stray <= q[0].start || t.End() <= stray)
  }

  /** Nothing is lost and nothing blank is queued. */
  predicate Sound(q: seq<Text>, t: Text, stray: nat) {
    if t.data == [] then Spent(q, t, stray)
    else !StartsInLast(q, t) && (Front(q, t) ==> stray <= t.start)
  }

  /** The segment as tcp_segment_reass gets it, if it gets there. */
  function Reassembled(r: Rx, s: Text): Option<Text> {
    if r.wnd == 0 then None else
    match TrimHead(s, r.nxt)
    case None => None
    case Some(t) => if r.nxt == t.start && r.queue == [] then None else Some(t)
  }

  predicate Orderable(r: Rx, s: Text, stray: nat) {
    match Reassembled(r, s) case None => true case Some(t) => Safe(r.queue, t, stray)
  }

  predicate Permitted(r: Rx, s: Text, stray: nat) {
    match Reassembled(r, s) case None => true case Some(t) => Sound(r.queue, t, stray)
  }
}
