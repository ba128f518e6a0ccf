/** The sender: tcp_send_text cuts a buffer into segments. */
module TcpSender {
  import opened Bytes
  import opened TcpReceive

  /** The segments tcp_send_text makes of `data`: `mss` octets each, the last one the rest. */
  function Cut(start: nat, data: seq<byte>, mss: nat): (ts: seq<Text>)
    requires mss >= 1
    decreases |data|
  {
    if data == [] then []
    else
      var n := Min(mss, |data|);
      [Text(start, data[..n])] + Cut(start + n, data[n..], mss)
  }

  /** The pieces are ordered, disjoint, non-empty slices of the stream that leave out nothing. */
  lemma {:induction false} CutPartitions(start: nat, data: seq<byte>, mss: nat, base: nat, stream: seq<byte>)
    requires mss >= 1 && base <= start && start + |data| == base + |stream|
    requires data == stream[start - base..]
    ensures Sorted(start, Cut(start, data, mss)) && Slices(Cut(start, data, mss), base, stream)
    ensures forall x :: Covers(Cut(start, data, mss), x) <==> start <= x < base + |stream|
    ensures forall t :: t in Cut(start, data, mss) ==> 1 <= |t.data| <= mss
    ensures forall t :: t in Cut(start, data, mss) && t.End() < base + |stream| ==> |t.data| == mss
    decreases |data|
  {
    hide Cut;
    if data == [] {
      CutNone(start, mss);
    } else {
      var n := Min(mss, |data|);
      CutStep(start, data, mss);
      assert data[n..] == stream[start + n - base..];
      CutPartitions(start + n, data[n..], mss, base, stream);
      var first, rest := Text(start, data[..n]), Cut(start + n, data[n..], mss);
      assert data[..n] == stream[start - base..start - base + n];
      assert Slice(first, base, stream);
      assert ([first] + rest)[1..] == rest;
    }
  }

  /** tcp_send_text: the loop that cuts a buffer no longer than the send window. */
  method SendText(sndNxt: nat, sndWnd: nat, buf: seq<byte>, mss: nat)
    returns (ts: seq<Text>, psh: seq<bool>, nxt: nat, wnd: nat, ret: int)
    requires mss >= 1
    ensures var len := Min(|buf|, sndWnd);
            && ts == Cut(sndNxt, buf[..len], mss) && nxt == sndNxt + len && wnd == sndWnd - len
            && ret == if len == 0 then -1 else len
    ensures |psh| == |ts| && forall i :: 0 <= i < |psh| ==> (psh[i] <==> i == |psh| - 1)
  {
    hide Cut;
    var len := Min(|buf|, sndWnd);
    var slen := 0;
    var segsize := mss;
    ts, psh, nxt, wnd := [], [], sndNxt, sndWnd;
    assert buf[0..len] == buf[..len];
    while slen < len
      invariant 0 <= slen <= len && nxt == sndNxt + slen && wnd == sndWnd - slen
      invariant 1 <= segsize <= mss && (segsize < mss ==> slen == len)
      invariant ts + Cut(nxt, buf[slen..len], mss) == Cut(sndNxt, buf[..len], mss)
      invariant |psh| == |ts| && (slen == len && len > 0 ==> |psh| > 0)
      invariant forall i :: 0 <= i < |psh| ==> (psh[i] <==> i == |psh| - 1 && slen == len)
    {
      segsize := Min(segsize, len - slen);
      ghost var rest := buf[slen..len];
      CutStep(nxt, rest, mss);
      assert rest[..segsize] == buf[slen..slen + segsize] && rest[segsize..] == buf[slen + segsize..len];
      Assoc(ts, [Text(nxt, rest[..segsize])], Cut(nxt + segsize, rest[segsize..], mss));
      ts := ts + [Text(nxt, buf[slen..slen + segsize])];
      nxt, wnd, slen := nxt + segsize, wnd - segsize, slen + segsize;
      psh := psh + [slen >= len];
    }
    assert buf[slen..len] == [];
    CutNone(nxt, mss);
    ret := if slen == 0 then -1 else slen;
  }

  lemma CutStep(start: nat, data: seq<byte>, mss: nat)
    requires mss >= 1 && data != []
    ensures var n := Min(mss, |data|);
            Cut(start, data, mss) == [Text(start, data[..n])] + Cut(start + n, data[n..], mss)
  {
  }

  lemma CutNone(start: nat, mss: nat)
    requires mss >= 1
    ensures Cut(start, [], mss) == []
  {
  }
}
