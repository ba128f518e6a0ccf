/** The receive ring of tapip (tapip/lib/cbuf.c and the index macros of tapip/include/cbuf.h). */
module CircularBuffer {
  import opened Bytes

  /**
   * The octets between read point and write point. Both indices run ahead of the array by at
   * most one turn, so the run is one slice or a slice at the end followed by one at the front.
   */
  function Slots(b: seq<byte>, tail: nat, head: nat): (r: seq<byte>)
    requires tail <= head < 2 * |b| && head <= tail + |b|
    ensures |r| == head - tail
  {
    if head <= |b| then b[tail..head]
    else if |b| <= tail then b[tail - |b|..head - |b|]
    else b[tail..] + b[..head - |b|]
  }

  /** `b` with `data` copied to the consecutive places starting at `at`: what memcpy does. */
  function Patched(b: seq<byte>, at: nat, data: seq<byte>): (r: seq<byte>)
    requires at + |data| <= |b|
    ensures |r| == |b|
  {
    b[..at] + data + b[at + |data|..]
  }

  lemma SliceSplit(b: seq<byte>, x: nat, y: nat, z: nat)
    requires x <= y <= z <= |b|
    ensures b[x..z] == b[x..y] + b[y..z]
  {
  }

  lemma SlotsAre(b: seq<byte>, tail: nat, head: nat)
    requires tail <= head < 2 * |b| && head <= tail + |b|
    ensures head <= |b| ==> Slots(b, tail, head) == b[tail..head]
    ensures |b| <= tail && |b| < head ==> Slots(b, tail, head) == b[tail - |b|..head - |b|]
    ensures tail < |b| < head ==> Slots(b, tail, head) == b[tail..|b|] + b[0..head - |b|]
  {
  }

  /** Slices of the patched array: before the run, up to its end, and behind it. */
  lemma PatchedSlices(b: seq<byte>, at: nat, data: seq<byte>, x: nat)
    requires at + |data| <= |b|
    ensures x <= at ==> Patched(b, at, data)[x..at + |data|] == b[x..at] + data
    ensures at + |data| <= x <= |b| ==> Patched(b, at, data)[x..|b|] == b[x..|b|]
  {
    var p := Patched(b, at, data);
    assert forall k :: 0 <= k < at ==> p[k] == b[k];
    assert p[at..at + |data|] == data;
    assert forall k :: at + |data| <= k < |b| ==> p[k] == b[k];
    if x <= at {
      SliceSplit(p, x, at, at + |data|);
      assert p[x..at] == b[x..at];
    }
  }

  lemma PatchedIs(a: seq<byte>, b: seq<byte>, at: nat, data: seq<byte>)
    requires at + |data| <= |b| == |a| && forall k :: 0 <= k < |data| ==> a[at + k] == data[k]
    requires forall k :: 0 <= k < |b| && !(at <= k < at + |data|) ==> a[k] == b[k]
    ensures a == Patched(b, at, data)
  {
    assert a[at..at + |data|] == data && a[..at] == b[..at] && a[at + |data|..] == b[at + |data|..];
  }

  /** Copying a run right after the write point appends it to the readable octets, if it fits. */
  lemma PatchAppends(b: seq<byte>, tail: nat, head: nat, data: seq<byte>, at: nat)
    requires tail < |b| && tail <= head && head + |data| <= tail + |b|
    requires at == (if head < |b| then head else head - |b|) && at + |data| <= |b|
    ensures Slots(Patched(b, at, data), tail, head + |data|) == Slots(b, tail, head) + data
  {
    hide Slots, Patched;
    var p := Patched(b, at, data);
    SlotsAre(b, tail, head);
    SlotsAre(p, tail, head + |data|);
    if head < |b| {
      PatchedSlices(b, at, data, tail);
    } else {
      PatchedSlices(b, at, data, tail);
      PatchedSlices(b, at, data, 0);
      if head == |b| {
        assert b[0..0] + data == data;
      }
      Assoc(b[tail..|b|], b[0..at], data);
      if data == [] {
        assert p == b by {
          PatchedNothing(b, at);
        }
      }
    }
  }

  lemma PatchedNothing(b: seq<byte>, at: nat)
    requires at <= |b|
    ensures Patched(b, at, []) == b
  {
  }

  /** A contiguous run in front of the end of the array, when the readable octets go around it. */
  lemma RunBeforeEnd(b: seq<byte>, tail: nat, head: nat, len: nat)
    requires tail < |b| < head < 2 * |b| && head <= tail + |b| && tail + len <= |b|
    ensures Slots(b, tail, head) == b[tail..tail + len] + Slots(b, tail + len, head)
  {
    hide Slots;
    var n := |b|;
    var run, rest, front := b[tail..tail + len], b[tail + len..n], b[0..head - n];
    SlotsAre(b, tail, head);
    SlotsAre(b, tail + len, head);
    SliceSplit(b, tail, tail + len, n);
    Assoc(run, rest, front);
    assert Slots(b, tail, head) == run + (rest + front);
    if tail + len == n {
      assert rest + front == front;
    }
  }

  /** ... when they do not reach the end. */
  lemma RunStraight(b: seq<byte>, tail: nat, head: nat, len: nat)
    requires tail + len <= head <= |b| && 0 < |b|
    ensures Slots(b, tail, head) == b[tail..tail + len] + Slots(b, tail + len, head)
  {
    hide Slots;
    SlotsAre(b, tail, head);
    SlotsAre(b, tail + len, head);
    SliceSplit(b, tail, tail + len, head);
  }

  /** ... when all of them are past it. */
  lemma RunPastEnd(b: seq<byte>, tail: nat, head: nat, len: nat)
    requires |b| <= tail && |b| < head < 2 * |b| && tail + len <= head
    ensures Slots(b, tail, head) == b[tail - |b|..tail - |b| + len] + Slots(b, tail + len, head)
  {
    hide Slots;
    SlotsAre(b, tail, head);
    SlotsAre(b, tail + len, head);
    SliceSplit(b, tail - |b|, tail - |b| + len, head - |b|);
  }

  /** A contiguous run at the read point is the front of the readable octets. */
  lemma RunAtTail(b: seq<byte>, tail: nat, head: nat, len: nat, at: nat)
    requires tail + len <= head < 2 * |b| && head <= tail + |b|
    requires at == (if tail < |b| then tail else tail - |b|) && at + len <= |b|
    ensures Slots(b, tail, head) == b[at..at + len] + Slots(b, tail + len, head)
  {
    hide Slots;
    if tail < |b| {
      if head <= |b| {
        RunStraight(b, tail, head, len);
      } else {
        RunBeforeEnd(b, tail, head, len);
      }
    } else if |b| < head {
      RunPastEnd(b, tail, head, len);
    } else {
      RunNothing(b[at..at + len], Slots(b, tail, head));
    }
  }

  /** Both indices may be moved back by one turn. */
  lemma Rebased(b: seq<byte>, tail: nat, head: nat)
    requires |b| <= tail <= head < 2 * |b|
    ensures Slots(b, tail - |b|, head - |b|) == Slots(b, tail, head)
  {
    hide Slots;
    SlotsAre(b, tail, head);
    SlotsAre(b, tail - |b|, head - |b|);
  }

  lemma RunNothing(run: seq<byte>, rest: seq<byte>)
    requires |run| == 0
    ensures run + rest == rest
  {
  }

  /** CBUFTAILRIGHT over the indices: contiguous octets to the right of the read point. */
  function TailRightOf(head: nat, tail: nat, size: nat): int
    requires size >= 1
  {
    if head % size > tail % size then head - tail else size - tail % size
  }

  lemma TailRightFits(head: nat, tail: nat, size: nat)
    requires 1 <= size && tail < head <= tail + size && head < 2 * size
    ensures 0 < TailRightOf(head, tail, size)
    ensures tail % size + TailRightOf(head, tail, size) <= size
  {
    ModSmall(head, size);
    ModSmall(tail, size);
  }

  /** CBUFHEADRIGHT over the indices: contiguous places to the right of the write point. */
  function HeadRightOf(head: nat, tail: nat, size: nat): int
    requires size >= 1
  {
    if head % size >= tail % size then size - head % size else tail % size - head % size
  }

  lemma HeadRightFits(head: nat, tail: nat, size: nat)
    requires tail < size && tail <= head < tail + size
    ensures 0 < HeadRightOf(head, tail, size)
    ensures head % size + HeadRightOf(head, tail, size) <= size
  {
    ModSmall(head, size);
    ModSmall(tail, size);
  }

  class CBuf {
    var head: int   // write point
    var tail: int   // read point
    const size: int
    const buf: array<byte>

    /** Between calls the indices never drift: the read point stays inside the array. */
    ghost predicate Valid()
      reads this
    {
      size >= 1 && buf.Length == size && 0 <= tail < size && tail <= head <= tail + size
    }

    ghost function Contents(): (s: seq<byte>)
      reads this, buf
      requires Valid()
      ensures |s| == head - tail
    {
      Slots(buf[..], tail, head)
    }

    constructor (size: int)
      requires size >= 1
      ensures Valid() && Contents() == [] && this.size == size && fresh(buf)
    {
      this.size := size;
      this.buf := new byte[size];
      head, tail := 0, 0;
    }

    function Used(): int
      reads this
    {
      head - tail
    }

    function Free(): int
      reads this
    {
      size - Used()
    }

    /** One memcpy at the write point, which then advances. */
    method CopyIn(chunk: seq<byte>)
      requires Valid() && |Contents()| + |chunk| <= size && head % size + |chunk| <= size
      modifies this`head, buf
      ensures Valid() && Contents() == old(Contents()) + chunk
      ensures head == old(head) + |chunk|
    {
      hide Slots, Patched;
      ghost var before := buf[..];
      var at := head % size;
      forall k | 0 <= k < |chunk| {
        buf[at + k] := chunk[k];
      }
      assert buf[..] == Patched(before, at, chunk) by {
        PatchedIs(buf[..], before, at, chunk);
      }
      ModSmall(head, size);
      PatchAppends(before, tail, head, chunk, at);
      head := head + |chunk|;
    }

    /** write_cbuf appends as much of `data` as there is room for and nothing else. */
    method Write(data: seq<byte>) returns (wlen: int)
      requires Valid()
      modifies this`head, buf
      ensures Valid()
      ensures wlen == Min(size - |old(Contents())|, |data|)
      ensures Contents() == old(Contents()) + data[..wlen]
    {
      hide Slots, HeadRightOf;
      wlen := Min(Free(), |data|);
      var done := 0;
      ghost var was := Contents();
      while done < wlen
        invariant 0 <= done <= wlen && Valid()
        invariant Contents() == was + data[..done]
      {
        HeadRightFits(head, tail, size);
        var onelen := Min(HeadRightOf(head, tail, size), wlen - done);
        CopyIn(data[done..done + onelen]);
        Assoc(was, data[..done], data[done..done + onelen]);
        assert data[..done] + data[done..done + onelen] == data[..done + onelen];
        done := done + onelen;
      }
    }

    /** One memcpy at the read point, which then advances without re-basing. */
    method CopyOut(len: nat, ghost b: seq<byte>) returns (chunk: seq<byte>)
      requires size >= 1 && buf.Length == size && buf[..] == b
      requires 0 <= tail && tail + len <= head < 2 * size && head <= tail + size
      requires tail % size + len <= size
      modifies this`tail
      ensures tail == old(tail) + len && |chunk| == len
      ensures chunk + Slots(b, tail, head) == old(Slots(b, tail, head))
    {
      hide Slots;
      var at := tail % size;
      chunk := buf[at..at + len];
      assert chunk == b[at..at + len];
      ModSmall(tail, size);
      RunAtTail(b, tail, head, len, at);
      tail := tail + len;
    }

    /** read_cbuf takes octets from the front, in order, and re-bases the indices. */
    method Read(n: nat) returns (out: seq<byte>)
      requires Valid()
      modifies this`head, this`tail
      ensures Valid()
      ensures |out| == Min(|old(Contents())|, n)
      ensures out + Contents() == old(Contents())
    {
      hide Slots, TailRightOf;
      ghost var b, was := buf[..], Contents();
      var rlen := Min(Used(), n);
      out := [];
      RunNothing(out, was);
      while |out| < rlen
        invariant |out| <= rlen && buf[..] == b
        invariant tail == old(tail) + |out| && head == old(head)
        invariant out + Slots(b, tail, head) == was
      {
        TailRightFits(head, tail, size);
        var onelen := Min(TailRightOf(head, tail, size), rlen - |out|);
        var chunk := CopyOut(onelen, b);
        Assoc(out, chunk, Slots(b, tail, head));
        out := out + chunk;
      }
      if tail >= size {
        Rebased(b, tail, head);
        head := head - size;
        tail := tail - size;
      }
    }
  }
}
