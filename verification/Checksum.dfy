/** The Internet checksum of tapip/lib/checksum.c and its uses, against RFC 1071. */
module Checksum {
  import opened Bytes

  const U32 := 0x1_0000_0000

  /** The sum of the 16-bit words as a little-endian host reads them; an odd last octet is a low octet. */
  function WordSum(data: seq<byte>): nat {
    if data == [] then 0
    else if |data| == 1 then data[0] as nat
    else data[0] as nat + 256 * data[1] as nat + WordSum(data[2..])
  }

  lemma ModAdd(a: nat, b: nat)
    ensures (a % U32 + b) % U32 == (a + b) % U32
  {
    var q := a / U32;
    assert a + b == q * U32 + (a % U32 + b);
    ModShift(a % U32 + b, q);
  }

  lemma {:induction false} ModShift(x: nat, q: nat)
    ensures (x + q * U32) % U32 == x % U32
    decreases q
  {
    if q > 0 {
      ModShift(x, q - 1);
      assert x + q * U32 == (x + (q - 1) * U32) + U32;
    }
  }

  lemma WordSumStep(data: seq<byte>, i: nat)
    requires i < |data|
    ensures WordSum(data[i..])
            == if i + 1 < |data| then data[i] as nat + 256 * data[i + 1] as nat + WordSum(data[i + 2..])
               else data[i] as nat
  {
    if i + 1 < |data| {
      assert data[i..][2..] == data[i + 2..];
    }
  }

  /** sum: the accumulating loop on 32 bits. */
  method Sum(data: seq<byte>, orig: nat) returns (s: nat)
    requires orig < U32
    ensures s == (orig + WordSum(data)) % U32
  {
    hide WordSum;
    s := orig;
    var i := 0;
    assert data[0..] == data;
    while i + 1 < |data|
      invariant 0 <= i <= |data| && s < U32
      invariant (s + WordSum(data[i..])) % U32 == (orig + WordSum(data)) % U32
    {
      WordSumStep(data, i);
      var w := data[i] as nat + 256 * data[i + 1] as nat;
      ModAdd(s + w, WordSum(data[i + 2..]));
      s := (s + w) % U32;
      i := i + 2;
    }
    if i < |data| {
      WordSumStep(data, i);
      s := (s + data[i] as nat) % U32;
    } else {
      WordSumNone(data[i..]);
    }
  }

  lemma WordSumNone(data: seq<byte>)
    requires data == []
    ensures WordSum(data) == 0
  {
  }

  /** Two folds of the carries into 16 bits. */
  function Fold(s: nat): nat {
    var a := s % 0x1_0000 + s / 0x1_0000;
    a % 0x1_0000 + a / 0x1_0000
  }

  /** checksum: fold and complement. */
  function ChecksumOf(data: seq<byte>, orig: nat): nat {
    0xffff - Fold((orig + WordSum(data)) % U32)
  }

  // --------------------------------------------------------------------------- reference: RFC 1071

  /** 16-bit one's complement addition: the carry goes around. */
  function EndAround(a: nat, b: nat): nat {
    if a + b > 0xffff then a + b - 0xffff else a + b
  }

  /** One's complement sum of the words, one addition after the other. */
  function OnesSum(data: seq<byte>): nat {
    if data == [] then 0
    else if |data| == 1 then data[0] as nat
    else EndAround(data[0] as nat + 256 * data[1] as nat, OnesSum(data[2..]))
  }

  /** The representative of `s` modulo 65535 in 1..65535, and 0 for 0. */
  function Ones(s: nat): (r: nat)
    ensures r <= 0xffff && (r == 0 <==> s == 0)
  {
    if s == 0 then 0 else (s - 1) % 0xffff + 1
  }

  lemma {:induction false} OnesSumIsOnes(data: seq<byte>)
    ensures OnesSum(data) == Ones(WordSum(data))
    decreases |data|
  {
    hide Ones, EndAround;
    if |data| > 1 {
      OnesSumIsOnes(data[2..]);
      EndAroundOnes(data[0] as nat + 256 * data[1] as nat, WordSum(data[2..]));
    } else {
      SmallOnes(WordSum(data));
    }
  }

  lemma SmallOnes(s: nat)
    requires s <= 0xffff
    ensures Ones(s) == s
  {
  }

  lemma OnesIs(s: nat)
    ensures s > 0 ==> s == (s - 1) / 0xffff * 0xffff + Ones(s)
  {
  }

  lemma EndAroundOnes(w: nat, s: nat)
    requires w <= 0xffff
    ensures EndAround(w, Ones(s)) == Ones(w + s)
  {
    if s > 0 {
      var k := (s - 1) / 0xffff;
      assert s == Ones(s) + k * 0xffff;
      ShiftOnes(w + Ones(s), k);
    }
  }

  /** Two folds are enough for 32 bits. */
  lemma FoldIsOnes(s: nat)
    requires s < U32
    ensures Fold(s) == Ones(s)
  {
    hide Ones;
    var hi, lo := s / 0x1_0000, s % 0x1_0000;
    assert s == hi * 0xffff + (hi + lo);
    var a := hi + lo;
    SecondFold(a);
    if a > 0 {
      ShiftOnes(a, hi);
    }
  }

  lemma SecondFold(a: nat)
    requires a <= 2 * 0xffff
    ensures a % 0x1_0000 + a / 0x1_0000 == Ones(a)
  {
    if 0x1_0000 <= a {
      assert a / 0x1_0000 == 1 && a % 0x1_0000 == a - 0x1_0000;
    }
  }

  lemma ShiftOnes(a: nat, k: nat)
    requires a > 0
    ensures Ones(a + k * 0xffff) == Ones(a)
  {
    assert (a - 1 + k * 0xffff) % 0xffff == (a - 1) % 0xffff;
  }

  /** When the true sum fits 32 bits, the checksum is the complement of RFC 1071's sum. */
  lemma ChecksumIsRfc1071(data: seq<byte>)
    requires WordSum(data) < U32
    ensures ChecksumOf(data, 0) == 0xffff - OnesSum(data)
  {
    hide WordSum, OnesSum, Ones, Fold;
    FoldIsOnes(WordSum(data));
    OnesSumIsOnes(data);
  }

  // ---------------------------------------------------------------------------- setting, verifying

  lemma {:induction false} WordSumConcat(a: seq<byte>, b: seq<byte>)
    requires |a| % 2 == 0
    ensures WordSum(a + b) == WordSum(a) + WordSum(b)
    decreases |a|
  {
    if a == [] {
      assert a + b == b;
    } else {
      assert (a + b)[2..] == a[2..] + b;
      WordSumConcat(a[2..], b);
    }
  }

  function Low(c: nat): byte
    requires c < 0x1_0000
  {
    (c % 256) as byte
  }

  function High(c: nat): byte
    requires c < 0x1_0000
  {
    (c / 256) as byte
  }

  lemma FieldSum(pre: seq<byte>, c: nat, post: seq<byte>)
    requires |pre| % 2 == 0 && c < 0x1_0000
    ensures WordSum(pre + [Low(c), High(c)] + post) == WordSum(pre) + c + WordSum(post)
  {
    var f := [Low(c), High(c)];
    WordSumConcat(pre, f + post);
    WordSumConcat(f, post);
    Assoc(pre, f, post);
    assert f[2..] == [];
  }

  /**
   * Store in a zeroed field what the code computes, then verify: the outcome is 0, for any contents
   * of odd or even length and any pseudo header `orig`, even where carries out of 32 bits are lost.
   */
  lemma SetThenVerify(pre: seq<byte>, post: seq<byte>, orig: nat)
    requires |pre| % 2 == 0
    ensures var c := ChecksumOf(pre + [0, 0] + post, orig);
            0 <= c < 0x1_0000 && ChecksumOf(pre + [Low(c), High(c)] + post, orig) == 0
  {
    hide WordSum, Ones, Fold, Low, High;
    var t := orig + WordSum(pre) + WordSum(post);
    FieldSum(pre, 0, post);
    assert Low(0) == 0 && High(0) == 0 by {
      ZeroField();
    }
    FoldIsOnes(t % U32);
    var c := 0xffff - Fold(t % U32);
    FieldSum(pre, c, post);
    ModAdd(t, c);
    AddThenFold(t % U32, c);
  }

  lemma ZeroField()
    ensures Low(0) == 0 && High(0) == 0 && Low(0xffff) == 255 && High(0xffff) == 255
  {
  }

  /** 2^32 - 1 is a multiple of 65535, so adding the complement never overflows 32 bits. */
  lemma AddThenFold(s: nat, c: nat)
    requires s < U32 && c == 0xffff - Ones(s)
    ensures s + c < U32 && Fold((s + c) % U32) == 0xffff
  {
    hide Fold;
    var k := if s == 0 then 0 else (s - 1) / 0xffff;
    assert s + c == k * 0xffff + 0xffff by {
      OnesIs(s);
    }
    assert k <= 0x1_0000;
    hide Ones;
    FoldIsOnes(s + c);
    ShiftOnes(0xffff, k);
    SmallOnes(0xffff);
  }

  /**
   * For UDP a computed 0 is sent as 0xffff. The segment then verifies if and only if the sum is not
   * the largest 32-bit number, where adding 0xffff loses a carry.
   */
  lemma UdpZeroVerifiesExactly(pre: seq<byte>, post: seq<byte>, orig: nat)
    requires |pre| % 2 == 0 && ChecksumOf(pre + [0, 0] + post, orig) == 0
    ensures ChecksumOf(pre + [255, 255] + post, orig) == 0
            <==> (orig + WordSum(pre) + WordSum(post)) % U32 != U32 - 1
  {
    hide WordSum, Fold, Low, High, ChecksumOf;
    var t := orig + WordSum(pre) + WordSum(post);
    ZeroField();
    FieldSum(pre, 0, post);
    ChecksumIs(pre + [0, 0] + post, orig, t);
    FieldSum(pre, 0xffff, post);
    ChecksumIs(pre + [255, 255] + post, orig, t + 0xffff);
    ModAdd(t, 0xffff);
    AllOnesAgain(t % U32);
  }

  lemma ChecksumIs(data: seq<byte>, orig: nat, t: nat)
    requires orig + WordSum(data) == t
    ensures ChecksumOf(data, orig) == 0xffff - Fold(t % U32)
  {
  }

  lemma AllOnesAgain(s: nat)
    requires s < U32 && Fold(s) == 0xffff
    ensures Fold((s + 0xffff) % U32) == 0xffff <==> s != U32 - 1
  {
    hide Fold;
    FoldIsOnes(s);
    if s + 0xffff < U32 {
      FoldIsOnes(s + 0xffff);
      ShiftOnes(s, 1);
    } else {
      assert s == U32 - 1;
      FoldIsOnes(0xfffe);
    }
  }

  /** An empty UDP datagram from 10.0.1.1 port 60329 to 10.0.254.254 port 53 is one that fails. */
  lemma UdpZeroExample()
    ensures var header: seq<byte> := [0xeb, 0xa9, 0, 53, 0, 8];
            var orig := 17 * 256 + 8 * 256 + 0x0101_000a + 0xfefe_000a;
            && ChecksumOf(header + [0, 0] + [], orig) == 0
            && ChecksumOf(header + [255, 255] + [], orig) != 0
  {
    var header: seq<byte> := [0xeb, 0xa9, 0, 53, 0, 8];
    var orig := 17 * 256 + 8 * 256 + 0x0101_000a + 0xfefe_000a;
    assert header[2..] == [0, 53, 0, 8] && [0 as byte, 53, 0, 8][2..] == [0, 8] && [0 as byte, 8][2..] == [];
    assert WordSum([0, 8]) == 0x0800 && WordSum([0, 53, 0, 8]) == 0x3d00;
    assert WordSum(header) == 0xe6eb && WordSum([]) == 0;
    ZeroField();
    FieldSum(header, 0, []);
    ChecksumIs(header + [0, 0] + [], orig, 0xffff_ffff);
    UdpZeroVerifiesExactly(header, [], orig);
  }

  /** ip_set_checksum on a header of at most 60 octets, in place: the header then verifies. */
  method SetIpChecksum(a: array<byte>)
    requires 20 <= a.Length <= 60
    modifies a
    ensures ChecksumOf(a[..], 0) == 0
    ensures forall i :: 0 <= i < a.Length && i != 10 && i != 11 ==> a[i] == old(a[i])
  {
    hide WordSum, Fold, Low, High;
    ghost var pre, post := a[..10], a[12..];
    a[10], a[11] := 0, 0;
    assert a[..] == pre + [0, 0] + post;
    var s := Sum(a[..], 0);
    var c := 0xffff - Fold(s);
    SetThenVerify(pre, post, 0);
    a[10], a[11] := Low(c), High(c);
    assert a[..] == pre + [Low(c), High(c)] + post;
  }

  lemma {:induction false} WordSumBound(data: seq<byte>)
    ensures 2 * WordSum(data) <= 0xffff * (|data| + 1)
    decreases |data|
  {
    if |data| > 1 {
      WordSumBound(data[2..]);
    }
  }

  // ------------------------------------------------------------------------- the TCP and UDP header

  /** tcp_udp_chksum: addresses, protocol and length are added on 32 bits before the data. */
  function TcpUdpChecksum(src: nat, dst: nat, proto: nat, len: nat, data: seq<byte>): nat {
    ChecksumOf(data, (proto + len + src + dst) % U32)
  }

  /** The one's complement sum that the standards ask for, address by address and word by word. */
  function PseudoSum(src: nat, dst: nat, proto: nat, len: nat, data: seq<byte>): nat {
    Ones(proto + len + WordSum(data) + src % 0x1_0000 + src / 0x1_0000 + dst % 0x1_0000 + dst / 0x1_0000)
  }

  /** The pseudo header of section 3.1 of RFC 793 in front of the data, word by word. */
  function PseudoOctets(src: nat, dst: nat, proto: nat, len: nat, data: seq<byte>): seq<byte>
    requires src < U32 && dst < U32 && proto < 0x1_0000 && len < 0x1_0000
  {
    Word(src % 0x1_0000) + (Word(src / 0x1_0000) + (Word(dst % 0x1_0000) + (Word(dst / 0x1_0000)
    + (Word(proto) + (Word(len) + data)))))
  }

  function Word(w: nat): seq<byte>
    requires w < 0x1_0000
  {
    [Low(w), High(w)]
  }

  lemma WordFirst(w: nat, data: seq<byte>)
    requires w < 0x1_0000
    ensures WordSum(Word(w) + data) == w + WordSum(data)
  {
    assert (Word(w) + data)[2..] == data;
  }

  /** ... which is the one's complement sum over pseudo header and data. */
  lemma PseudoSumIsStandard(src: nat, dst: nat, proto: nat, len: nat, data: seq<byte>)
    requires src < U32 && dst < U32 && proto < 0x1_0000 && len < 0x1_0000
    ensures OnesSum(PseudoOctets(src, dst, proto, len, data)) == PseudoSum(src, dst, proto, len, data)
  {
    hide WordSum, OnesSum, Ones, Word;
    OnesSumIsOnes(PseudoOctets(src, dst, proto, len, data));
    var e := Word(len) + data;
    var d := Word(proto) + e;
    var c := Word(dst / 0x1_0000) + d;
    var b := Word(dst % 0x1_0000) + c;
    var a := Word(src / 0x1_0000) + b;
    WordFirst(len, data);
    WordFirst(proto, e);
    WordFirst(dst / 0x1_0000, d);
    WordFirst(dst % 0x1_0000, c);
    WordFirst(src / 0x1_0000, b);
    WordFirst(src % 0x1_0000, a);
  }

  lemma AddressesFold(src: nat, dst: nat, rest: nat)
    requires src < U32 && dst < U32
    ensures Ones(rest + src + dst)
            == Ones(rest + src % 0x1_0000 + src / 0x1_0000 + dst % 0x1_0000 + dst / 0x1_0000)
  {
    var a := rest + src % 0x1_0000 + src / 0x1_0000 + dst % 0x1_0000 + dst / 0x1_0000;
    var k := src / 0x1_0000 + dst / 0x1_0000;
    assert rest + src + dst == a + k * 0xffff;
    if a > 0 {
      ShiftOnes(a, k);
    }
  }

  /**
   * The carry out of 32 bits is lost, so the checksum is the standard one if and only if addresses,
   * protocol, length and data together stay below 2^32.
   */
  lemma PseudoHeaderExactly(src: nat, dst: nat, proto: nat, len: nat, data: seq<byte>)
    requires src < U32 && dst < U32 && proto < 0x1_0000 && len < 0x1_0000 && |data| < 0x1_0000
    ensures TcpUdpChecksum(src, dst, proto, len, data) == 0xffff - PseudoSum(src, dst, proto, len, data)
            <==> proto + len + src + dst + WordSum(data) < U32
  {
    hide WordSum, Ones, Fold;
    var t := proto + len + src + dst + WordSum(data);
    AddressesFold(src, dst, proto + len + WordSum(data));
    WordSumBound(data);
    FoldIsOnes(t % U32);
    ModAdd(proto + len + src + dst, WordSum(data));
    LostCarry(t);
  }

  lemma LostCarry(t: nat)
    requires t < 4 * U32
    ensures Ones(t % U32) == Ones(t) <==> t < U32
  {
    var q, s := t / U32, t % U32;
    assert t == s + q + q * 0x1_0001 * 0xffff;
    if q > 0 {
      ShiftOnes(s + q, q * 0x1_0001);
      assert Ones(s + q) != Ones(s);
    }
  }

  /** Two neighbours whose last octets add up to 256 or more already lose the carry. */
  lemma LostCarryExample()
    ensures var src, dst := 0xc800_a8c0, 0x6400_a8c0;  // 192.168.0.200 and 192.168.0.100
            TcpUdpChecksum(src, dst, 6 * 256, 20 * 256, []) != 0xffff - PseudoSum(src, dst, 6 * 256, 20 * 256, [])
  {
    PseudoHeaderExactly(0xc800_a8c0, 0x6400_a8c0, 6 * 256, 20 * 256, []);
  }

  // ---------------------------------------------------------------------------------- the echo reply

  const ECHO_REQUEST := 8

  /** The adjustment of icmp_echo_request on the 16-bit field. */
  function Adjusted(cksum: nat): nat {
    if cksum >= 0xffff - ECHO_REQUEST then (cksum + ECHO_REQUEST + 1) % 0x1_0000 else cksum + ECHO_REQUEST
  }

  lemma {:induction false} WordSumZero(data: seq<byte>)
    ensures WordSum(data) == 0 <==> forall i :: 0 <= i < |data| ==> data[i] == 0
    decreases |data|
  {
    if |data| > 1 {
      WordSumZero(data[2..]);
      assert forall i :: 2 <= i < |data| ==> data[i] == data[2..][i - 2];
      assert (forall i :: 0 <= i < |data| ==> data[i] == 0) <==>
             data[0] == 0 && data[1] == 0 && forall i :: 0 <= i < |data| - 2 ==> data[2..][i] == 0;
    }
  }

  /**
   * A verifying echo request becomes a verifying reply if and only if some octet behind type, code
   * and checksum is not zero.
   */
  lemma EchoReplyExactly(cksum: nat, rest: seq<byte>)
    requires cksum < 0x1_0000 && |rest| < 0x1_0000
    requires ChecksumOf([8, 0] + [Low(cksum), High(cksum)] + rest, 0) == 0
    ensures var c := Adjusted(cksum);
            && c < 0x1_0000
            && (ChecksumOf([0, 0] + [Low(c), High(c)] + rest, 0) == 0
                <==> exists i :: 0 <= i < |rest| && rest[i] != 0)
  {
    hide WordSum, Fold, Low, High, Ones, Adjusted;
    var c, r := Adjusted(cksum), WordSum(rest);
    AdjustedIs(cksum);
    FieldSum([8, 0], cksum, rest);
    FieldSum([0, 0], c, rest);
    WordSumBound(rest);
    FirstWords();
    WordSumZero(rest);
    EchoSums(cksum, r);
  }

  lemma FirstWords()
    ensures WordSum([8, 0]) == 8 && WordSum([0, 0]) == 0
  {
    assert [8 as byte, 0][2..] == [] && [0 as byte, 0][2..] == [];
  }

  lemma AdjustedIs(cksum: nat)
    requires cksum < 0x1_0000
    ensures Adjusted(cksum) < 0x1_0000
    ensures Adjusted(cksum) == if cksum >= 0xfff7 then cksum + 8 - 0xffff else cksum + 8
  {
  }

  /** On the sums: only 8 + 0xfff7 and nothing else turns into a sum of 0, which does not verify. */
  lemma EchoSums(cksum: nat, r: nat)
    requires cksum < 0x1_0000 && r < 0x8000_0000 && Fold(8 + cksum + r) == 0xffff
    ensures Fold(Adjusted(cksum) + r) == 0xffff <==> r > 0
  {
    hide Fold, Adjusted;
    var c := Adjusted(cksum);
    AdjustedIs(cksum);
    FoldIsOnes(8 + cksum + r);
    FoldIsOnes(c + r);
    if cksum >= 0xfff7 {
      if c + r > 0 {
        ShiftOnes(c + r, 1);
      }
    }
  }

  /** icmp_echo_request on the packet in place. */
  method EchoRequestToReply(a: array<byte>) returns (replied: bool)
    requires 8 <= a.Length < 0x1_0000 && a[0] == 8
    modifies a
    ensures replied <==> old(a[1]) == 0
    ensures !replied ==> a[..] == old(a[..])
    ensures replied && old(ChecksumOf(a[..], 0)) == 0 && (exists i :: 4 <= i < a.Length && old(a[i]) != 0) ==>
              ChecksumOf(a[..], 0) == 0
    ensures replied ==> a[0] == 0 && a[1] == 0 && a[4..] == old(a[4..])
  {
    replied := a[1] == 0;
    if replied {
      var cksum := a[2] as nat + 256 * a[3] as nat;
      ghost var rest := a[4..];
      assert a[..] == [8, 0] + [Low(cksum), High(cksum)] + rest;
      if old(ChecksumOf(a[..], 0)) == 0 {
        EchoReplyExactly(cksum, rest);
      }
      var c := Adjusted(cksum);
      a[0], a[2], a[3] := 0, Low(c), High(c);
      assert a[..] == [0, 0] + [Low(c), High(c)] + rest;
      assert forall i :: 4 <= i < a.Length ==> old(a[i]) == rest[i - 4];
    }
  }
}
