/**
 * The growable buffer of easy_net (easy_net/base/buffer.cpp) with the scatter read and the partial
 * write of easy_net/base/socket_opt.cpp. A system call is a list of answers: interruptions, then
 * its result.
 */
module ByteBuffer {
  import opened Bytes

  /** The extra buffer of ReadFdToBuffer. */
  const EXTRA := 65536

  /** The 32-bit `int` that the index setters take. */
  const I31 := 0x8000_0000
  const U32 := 0x1_0000_0000
  const U64 := 0x1_0000_0000_0000_0000

  /** No vector of octets is larger. */
  const MAX_SIZE := 0x7fff_ffff_ffff_ffff

  /** A size converted to `int`. */
  function ToInt(n: nat): int {
    if n % U32 < I31 then n % U32 else n % U32 - U32
  }

  /** `idx += step` for a 64-bit index and an `int` step. */
  function Advanced(idx: nat, n: nat): int {
    (idx + ToInt(n)) % U64
  }

  /** An index ends up where the octets end exactly for steps below 2^31. */
  lemma AdvanceExactly(idx: nat, n: nat)
    requires idx + n <= MAX_SIZE
    ensures Advanced(idx, n) == idx + n <==> n < I31
  {
    if n >= I31 {
      assert -I31 <= ToInt(n) < n;
      var at := idx + ToInt(n);
      assert at < 0 ==> at % U64 == at + U64;
    }
  }

  /** What a system call answers; `Took` of a write counts octets, `Gave` of a read holds them. */
  datatype Answer = Interrupted | WouldBlock | Failed | Gave(octets: seq<byte>) | Took(count: nat)

  /** The retry loop ends: somewhere an answer is not an interruption. */
  predicate Settles(answers: seq<Answer>) {
    exists i :: 0 <= i < |answers| && !answers[i].Interrupted?
  }

  /** The first answer that is not an interruption. */
  function Final(answers: seq<Answer>): (r: Answer)
    requires Settles(answers)
    ensures !r.Interrupted? && r in answers
  {
    if !answers[0].Interrupted? then answers[0] else
      var i :| 0 <= i < |answers| && !answers[i].Interrupted?;
      assert answers[1..][i - 1] == answers[i];
      Final(answers[1..])
  }

  lemma FinalIs(answers: seq<Answer>, i: nat)
    requires i < |answers| && !answers[i].Interrupted?
    requires forall j :: 0 <= j < i ==> answers[j].Interrupted?
    ensures Settles(answers) && Final(answers) == answers[i]
    decreases i
  {
    if i > 0 {
      FinalIs(answers[1..], i - 1);
    }
  }

  // ----------------------------------------------------------------------------------- the buffer

  class Buffer {
    var data: array<byte>
    var readidx: nat
    var writeidx: nat

    /** Reader index, writer index and size in order. */
    ghost predicate Valid()
      reads this
    {
      readidx <= writeidx <= data.Length <= MAX_SIZE
    }

    /** The readable octets. */
    ghost function Contents(): (s: seq<byte>)
      requires Valid()
      reads this, data
      ensures |s| == writeidx - readidx
    {
      data[readidx..writeidx]
    }

    constructor (initialSize: nat)
      requires initialSize <= MAX_SIZE
      ensures Valid() && fresh(data) && data.Length == initialSize && Contents() == []
    {
      data := new byte[initialSize];
      readidx, writeidx := 0, 0;
    }

    method Clear()
      requires Valid()
      modifies this
      ensures Valid() && fresh(data) && data.Length == 0 && Contents() == []
    {
      data := new byte[0];
      readidx, writeidx := 0, 0;
    }

    /** Readable octets move to the front, in place. */
    method Compact()
      requires Valid()
      modifies this`readidx, this`writeidx, data
      ensures Valid() && Contents() == old(Contents()) && readidx == 0
    {
      ghost var was := Contents();
      var n := writeidx - readidx;
      var i := 0;
      while i < n
        invariant 0 <= i <= n == writeidx - readidx
        invariant readidx == old(readidx) && writeidx == old(writeidx)
        invariant forall k :: 0 <= k < i ==> data[k] == was[k]
        invariant forall k :: i <= k < n ==> data[readidx + k] == was[k]
      {
        data[i] := data[readidx + i];
        i := i + 1;
      }
      readidx, writeidx := 0, n;
      assert data[0..n] == was;
    }

    /** A larger vector with the same octets. */
    method Resize(size: nat)
      requires Valid() && data.Length <= size <= MAX_SIZE
      modifies this`data
      ensures Valid() && fresh(data) && data.Length == size && Contents() == old(Contents())
    {
      var bigger := new byte[size];
      var i := 0;
      while i < data.Length
        invariant 0 <= i <= data.Length && data == old(data)
        invariant forall k :: 0 <= k < i ==> bigger[k] == data[k]
      {
        bigger[i] := data[i];
        i := i + 1;
      }
      assert bigger[readidx..writeidx] == data[readidx..writeidx];
      data := bigger;
    }

    /**
     * ensureEnoughBytes: compact when that is enough, grow otherwise. The vector grows only when
     * the octets do not fit at all, so it stays within three times what had to be held.
     */
    method EnsureEnoughBytes(need: nat)
      requires Valid() && 2 * writeidx + need <= MAX_SIZE
      modifies this, data
      ensures Valid() && (data == old(data) || fresh(data))
      ensures need <= data.Length - writeidx && Contents() == old(Contents())
      ensures data.Length == old(data.Length) <==> |Contents()| + need <= old(data.Length)
      ensures data.Length == old(data.Length) || old(data.Length) < data.Length <= 3 * (|Contents()| + need)
    {
      if need > data.Length - writeidx {
        if readidx + (data.Length - writeidx) >= need {
          Compact();
        } else {
          Resize(2 * writeidx + need);
        }
      }
    }

    /** Append: the conversion to `int` is harmless below 2^31. */
    method Append(octets: seq<byte>)
      requires Valid() && 2 * writeidx + |octets| <= MAX_SIZE && |octets| < I31
      modifies this, data
      ensures Valid() && (data == old(data) || fresh(data))
      ensures Contents() == old(Contents()) + octets
      ensures data.Length == old(data.Length) || old(data.Length) < data.Length <= 3 * |Contents()|
    {
      EnsureEnoughBytes(ToInt(|octets|));
      Put(octets);
    }

    /** Octets at the writer index, which moves past them. */
    method Put(octets: seq<byte>)
      requires Valid() && |octets| <= data.Length - writeidx && |octets| < I31
      modifies this`writeidx, data
      ensures Valid() && Contents() == old(Contents()) + octets
      ensures writeidx == old(writeidx) + |octets|
    {
      CopyIn(data, writeidx, octets);
      ghost var was := Contents();
      AdvanceExactly(writeidx, |octets|);
      writeidx := Advanced(writeidx, |octets|);
      assert data[readidx..writeidx] == was + octets;
    }

    /**
     * Octets off the front, without a test of the size: the order of the indices survives if and
     * only if no more is asked for than is readable.
     */
    method RetriveAsString(sz: nat) returns (octets: seq<byte>)
      requires Valid() && readidx + sz <= data.Length && sz < I31
      modifies this`readidx
      ensures Valid() <==> sz <= old(writeidx - readidx)
      ensures readidx == old(readidx) + sz && octets == data[old(readidx)..readidx]
      ensures Valid() ==> octets + Contents() == old(Contents())
    {
      octets := data[readidx..readidx + sz];
      AdvanceExactly(readidx, sz);
      readidx := Advanced(readidx, sz);
    }

    /** Everything; the room is the whole vector again. */
    method RetriveAllAsString() returns (octets: seq<byte>)
      requires Valid()
      modifies this`readidx, this`writeidx
      ensures Valid() && octets == old(Contents()) && Contents() == [] && writeidx == 0
    {
      octets := data[readidx..writeidx];
      readidx, writeidx := 0, 0;
    }
  }

  /** Octets into an array from `at` on, and nothing else. */
  method CopyIn(a: array<byte>, at: nat, octets: seq<byte>)
    requires at + |octets| <= a.Length
    modifies a
    ensures a[..] == old(a[..at]) + octets + old(a[at + |octets|..])
  {
    var i := 0;
    while i < |octets|
      invariant 0 <= i <= |octets|
      invariant forall j :: 0 <= j < i ==> a[at + j] == octets[j]
      invariant forall k :: 0 <= k < a.Length && !(at <= k < at + i) ==> a[k] == old(a[k])
    {
      a[at + i] := octets[i];
      i := i + 1;
    }
    ghost var pre, post := old(a[..at]), old(a[at + |octets|..]);
    assert a[..at] == pre && a[at..at + |octets|] == octets && a[at + |octets|..] == post;
    assert a[..] == a[..at] + a[at..at + |octets|] + a[at + |octets|..];
  }

  // ------------------------------------------------------------------------------- the system calls

  /** How much readv may give: the writable part, and the extra buffer when that is small. */
  function Capacity(room: nat): nat {
    if room < EXTRA then room + EXTRA else room
  }

  /** The `do … while (n == -1 && errno == EINTR)` around a system call. */
  method Retry(answers: seq<Answer>) returns (answer: Answer)
    requires Settles(answers)
    ensures answer == Final(answers)
  {
    var i := 0;
    while answers[i].Interrupted?
      invariant 0 <= i < |answers|
      invariant forall j :: 0 <= j < i ==> answers[j].Interrupted?
      decreases |answers| - i
    {
      i := i + 1;
    }
    answer := answers[i];
    FinalIs(answers, i);
  }

  /** The kernel's part of readv: the writable octets first, then the extra buffer. */
  method Scatter(extra: array<byte>, octets: seq<byte>, room: nat) returns (first: seq<byte>, count: nat)
    requires extra.Length == EXTRA && |octets| <= room + EXTRA
    modifies extra
    ensures |first| == Min(|octets|, room) && count <= EXTRA
    ensures first + extra[..count] == octets
  {
    first := octets[..Min(|octets|, room)];
    count := |octets| - |first|;
    CopyIn(extra, 0, octets[|first|..]);
    assert extra[..count] == octets[|first|..];
  }

  /** Second half of ReadFdToBuffer: the indices, and the octets that did not fit. */
  method Accept(buf: Buffer, octets: seq<byte>)
    requires buf.Valid() && buf.data.Length < I31 && |octets| < I31
    requires |octets| <= Capacity(buf.data.Length - buf.writeidx)
    modifies buf, buf.data
    ensures buf.Valid() && (buf.data == old(buf.data) || fresh(buf.data))
    ensures buf.Contents() == old(buf.Contents()) + octets
    ensures buf.data.Length == old(buf.data.Length)
            || old(buf.data.Length) < buf.data.Length <= 3 * |buf.Contents()|
  {
    var room := buf.data.Length - buf.writeidx;
    ghost var was := buf.Contents();
    var extra := new byte[EXTRA];
    var first, count := Scatter(extra, octets, room);
    buf.Put(first);
    if |octets| > room {
      var rest := extra[..count];
      buf.Append(rest);
      Assoc(was, first, rest);
    } else {
      assert extra[..count] == [];
    }
  }

  /** ReadFdToBuffer: whatever the kernel gives arrives at the end, in order. */
  method ReadFdToBuffer(buf: Buffer, answers: seq<Answer>) returns (n: int)
    requires buf.Valid() && buf.data.Length < I31 && Settles(answers)
    requires Final(answers).Gave? ==>
               |Final(answers).octets| <= Capacity(buf.data.Length - buf.writeidx)
               && |Final(answers).octets| < I31
    modifies buf, buf.data
    ensures buf.Valid() && (buf.data == old(buf.data) || fresh(buf.data))
    ensures n == if Final(answers).Gave? then |Final(answers).octets| else -1
    ensures buf.Contents() == old(buf.Contents()) + (if Final(answers).Gave? then Final(answers).octets else [])
    ensures buf.data.Length == old(buf.data.Length)
            || old(buf.data.Length) < buf.data.Length <= 3 * |buf.Contents()|
  {
    var answer := Retry(answers);
    if !answer.Gave? {
      return -1;
    }
    n := |answer.octets|;
    if n > 0 {
      Accept(buf, answer.octets);
    }
  }

  /** WriteBufferToFd: what the kernel took leaves the buffer, and only that. */
  method WriteBufferToFd(buf: Buffer, answers: seq<Answer>) returns (n: int, taken: seq<byte>)
    requires buf.Valid() && Settles(answers)
    requires Final(answers).Took? ==> Final(answers).count <= buf.writeidx - buf.readidx && Final(answers).count < I31
    modifies buf`readidx
    ensures buf.Valid() && taken + buf.Contents() == old(buf.Contents())
    ensures n == match Final(answers) case WouldBlock => 0 case Took(count) => count case _ => -1
    ensures |taken| == if n > 0 then n else 0
  {
    taken := [];
    var answer := Retry(answers);
    if answer.WouldBlock? {
      return 0, [];
    }
    n := if answer.Took? then answer.count else -1;
    if n > 0 {
      taken := buf.RetriveAsString(n);
    }
  }

  // ------------------------------------------------------------------------------------- every run

  /**
   * One use of the buffer. `n` is what the caller or the kernel would like to move; system calls
   * are interrupted any number of times and may fail.
   */
  datatype Move =
    | Append(n: nat)
    | Retrieve(n: nat)
    | RetrieveAll
    | Discard
    | FromFd(interruptions: nat, fails: bool, n: nat)
    | ToFd(interruptions: nat, fails: bool, n: nat)

  /** A buffer that never has to hold more keeps every index within the `int` of the setters. */
  const MAX_LOAD := 0x1fff_ffff

  /** What the buffer holds at most after the moves, if everything asked for is granted. */
  function Load(moves: seq<Move>): nat {
    if moves == [] then 0
    else
      var load := Load(moves[..|moves| - 1]);
      match moves[|moves| - 1]
      case Append(n) => load + n
      case FromFd(_, fails, n) => if fails then load else load + n
      case Retrieve(n) => if n <= load then load - n else 0
      case ToFd(_, fails, n) => if fails then load else if n <= load then load - n else 0
      case RetrieveAll => 0
      case Discard => 0
  }

  /** At no time more than the buffer can index. */
  predicate Bearable(moves: seq<Move>) {
    moves == [] || (Load(moves) <= MAX_LOAD && Bearable(moves[..|moves| - 1]))
  }

  function Answers(interruptions: nat, last: Answer): (r: seq<Answer>)
    requires !last.Interrupted?
    ensures Settles(r) && Final(r) == last
  {
    var r := seq(interruptions, _ => Interrupted) + [last];
    FinalIs(r, interruptions);
    r
  }

  /** An unbounded queue: what left it, retrieved or discarded; what it holds; what has not entered. */
  datatype Queue = Queue(out: seq<byte>, held: seq<byte>, left: seq<byte>)

  function Enqueue(q: Queue, n: nat): (r: Queue)
    ensures |r.left| == if n <= |q.left| then |q.left| - n else 0
    ensures |r.held| + |r.left| == |q.held| + |q.left| && r.out == q.out
  {
    var k := Min(n, |q.left|);
    Queue(q.out, q.held + q.left[..k], q.left[k..])
  }

  function Dequeue(q: Queue, n: nat): (r: Queue)
    ensures |r.held| == if n <= |q.held| then |q.held| - n else 0
    ensures |r.out| + |r.held| == |q.out| + |q.held| && r.left == q.left
  {
    var k := Min(n, |q.held|);
    Queue(q.out + q.held[..k], q.held[k..], q.left)
  }

  function Pass(q: Queue, move: Move): Queue {
    match move
    case Append(n) => Enqueue(q, n)
    case Retrieve(n) => Dequeue(q, n)
    case RetrieveAll => Dequeue(q, |q.held|)
    case Discard => Dequeue(q, |q.held|)
    case FromFd(_, fails, n) => if fails then q else Enqueue(q, n)
    case ToFd(_, fails, n) => if fails then q else Dequeue(q, n)
  }

  function PassAll(q: Queue, moves: seq<Move>): Queue {
    if moves == [] then q else Pass(PassAll(q, moves[..|moves| - 1]), moves[|moves| - 1])
  }

  function Stream(q: Queue): seq<byte> {
    q.out + (q.held + q.left)
  }

  lemma EnqueueConserves(q: Queue, n: nat)
    ensures Stream(Enqueue(q, n)) == Stream(q)
  {
    var k := Min(n, |q.left|);
    assert q.left[..k] + q.left[k..] == q.left;
    Assoc(q.held, q.left[..k], q.left[k..]);
  }

  lemma DequeueConserves(q: Queue, n: nat)
    ensures Stream(Dequeue(q, n)) == Stream(q)
  {
    var k := Min(n, |q.held|);
    assert q.held[..k] + q.held[k..] == q.held;
    Assoc(q.held[..k], q.held[k..], q.left);
    Assoc(q.out, q.held[..k], q.held[k..] + q.left);
  }

  /** Nothing is lost, repeated or reordered: out, held and left together never change. */
  lemma {:induction false} PassConserves(q: Queue, moves: seq<Move>)
    ensures Stream(PassAll(q, moves)) == Stream(q)
    decreases |moves|
  {
    hide Enqueue, Dequeue, Stream;
    if moves != [] {
      PassConserves(q, moves[..|moves| - 1]);
      var p := PassAll(q, moves[..|moves| - 1]);
      match moves[|moves| - 1]
      case Append(n) => EnqueueConserves(p, n);
      case Retrieve(n) => DequeueConserves(p, n);
      case RetrieveAll => DequeueConserves(p, |p.held|);
      case Discard => DequeueConserves(p, |p.held|);
      case FromFd(_, _, n) => EnqueueConserves(p, n);
      case ToFd(_, _, n) => DequeueConserves(p, n);
    }
  }

  /** A scatter read may be granted less than the kernel has, but never less than the extra buffer. */
  predicate Granted(wish: Move, grant: Move) {
    grant == wish
    || (wish.FromFd? && grant.FromFd? && EXTRA <= grant.n <= wish.n
        && grant.interruptions == wish.interruptions && grant.fails == wish.fails)
  }

  lemma LoadNext(q: Queue, moves: seq<Move>, wish: Move, grant: Move)
    requires |q.held| <= Load(moves) && Granted(wish, grant)
    ensures |Pass(q, grant).held| <= Load(moves + [wish])
  {
    assert (moves + [wish])[..|moves|] == moves;
  }

  lemma {:induction false} BearablePrefix(moves: seq<Move>, i: nat)
    requires Bearable(moves) && i <= |moves|
    ensures Bearable(moves[..i]) && Load(moves[..i]) <= MAX_LOAD
    decreases |moves|
  {
    if i == |moves| {
      assert moves[..i] == moves;
    } else {
      BearablePrefix(moves[..|moves| - 1], i);
      assert moves[..|moves| - 1][..i] == moves[..i];
    }
  }

  /** Octets of the stream that enter the buffer. */
  method Enter(buf: Buffer, move: Move, ghost q: Queue, rest: seq<byte>) returns (left: seq<byte>, ghost grant: Move)
    requires buf.Valid() && buf.data.Length < I31
    requires move.Append? || (move.FromFd? && (move.fails || move.n < I31))
    requires move.Append? ==> move.n < I31
    requires buf.Contents() == q.held && rest == q.left
    modifies buf, buf.data
    ensures buf.Valid() && (buf.data == old(buf.data) || fresh(buf.data))
    ensures Granted(move, grant) && Pass(q, grant) == Queue(q.out, buf.Contents(), left)
    ensures buf.data.Length == old(buf.data.Length) || buf.data.Length <= 3 * |buf.Contents()|
  {
    hide Settles, Final, Answers;
    grant := move;
    var k := Min(move.n, |rest|);
    if move.Append? {
      buf.Append(rest[..k]);
    } else {
      var capacity := Capacity(buf.data.Length - buf.writeidx);
      if capacity < k {
        k := capacity;
        grant := FromFd(move.interruptions, move.fails, k);
      }
      var last := if move.fails then Failed else Gave(rest[..k]);
      var n := ReadFdToBuffer(buf, Answers(move.interruptions, last));
      if n < 0 {
        k := 0;
      }
    }
    left := rest[k..];
  }

  /** Octets that leave the buffer. A retrieval asks for no more than is readable. */
  method Leave(buf: Buffer, move: Move, ghost q: Queue) returns (more: seq<byte>)
    requires buf.Valid() && buf.data.Length < I31 && buf.Contents() == q.held
    requires !move.Append? && !move.FromFd?
    modifies buf
    ensures buf.Valid() && (buf.data == old(buf.data) || fresh(buf.data)) && buf.data.Length < I31
    ensures Pass(q, move) == Queue(q.out + more, buf.Contents(), q.left)
  {
    hide Settles, Final, Answers;
    if move.RetrieveAll? {
      more := buf.RetriveAllAsString();
    } else if move.Discard? {
      more := buf.data[buf.readidx..buf.writeidx];
      buf.Clear();
    } else {
      var k := Min(move.n, buf.writeidx - buf.readidx);
      if move.Retrieve? {
        more := buf.RetriveAsString(k);
      } else {
        var _, taken := WriteBufferToFd(buf, Answers(move.interruptions, if move.fails then WouldBlock else Took(k)));
        more := taken;
      }
      assert q.held[..|more|] == more && q.held[|more|..] == buf.Contents();
    }
  }

  /**
   * For every stream, however long, and every sequence of moves that never loads the buffer with
   * more than it can index: the buffer does what the unbounded queue does, up to the size of a
   * scatter read; so what has left it, what it holds and what has not entered yet are the stream.
   */
  method Exchange(initialSize: nat, stream: seq<byte>, moves: seq<Move>)
    returns (out: seq<byte>, held: seq<byte>, left: seq<byte>, ghost grants: seq<Move>)
    requires initialSize < I31 && Bearable(moves)
    ensures |grants| == |moves| && forall i :: 0 <= i < |moves| ==> Granted(moves[i], grants[i])
    ensures Queue(out, held, left) == PassAll(Queue([], [], stream), grants)
    ensures out + held + left == stream
  {
    hide Pass, Granted, Load;
    var buf := new Buffer(initialSize);
    ghost var start := Queue([], [], stream);
    out, left, grants := [], stream, [];
    LoadNothing(moves[..0]);
    for i := 0 to |moves|
      invariant fresh(buf) && fresh(buf.data) && buf.Valid() && buf.data.Length < I31
      invariant |grants| == i && forall j :: 0 <= j < i ==> Granted(moves[j], grants[j])
      invariant Queue(out, buf.Contents(), left) == PassAll(start, grants)
      invariant |buf.Contents()| <= Load(moves[..i])
    {
      ghost var q := PassAll(start, grants);
      ghost var grant := moves[i];
      LoadBounds(moves, i);
      if moves[i].Append? || moves[i].FromFd? {
        left, grant := Enter(buf, moves[i], q, left);
      } else {
        var more := Leave(buf, moves[i], q);
        SelfGranted(moves[i]);
        out := out + more;
      }
      LoadNext(q, moves[..i], moves[i], grant);
      assert moves[..i] + [moves[i]] == moves[..i + 1];
      assert (grants + [grant])[..i] == grants;
      grants := grants + [grant];
    }
    held := buf.data[buf.readidx..buf.writeidx];
    PassConserves(start, grants);
    Assoc(out, held, left);
  }

  lemma LoadNothing(moves: seq<Move>)
    requires moves == []
    ensures Load(moves) == 0
  {
  }

  lemma LoadBounds(moves: seq<Move>, i: nat)
    requires Bearable(moves) && i < |moves|
    ensures Load(moves[..i]) <= MAX_LOAD && Load(moves[..i + 1]) <= MAX_LOAD
    ensures moves[i].Append? || (moves[i].FromFd? && !moves[i].fails) ==> moves[i].n <= MAX_LOAD
  {
    BearablePrefix(moves, i);
    BearablePrefix(moves, i + 1);
    assert moves[..i + 1][..i] == moves[..i];
  }

  lemma SelfGranted(move: Move)
    ensures Granted(move, move)
  {
  }
}
