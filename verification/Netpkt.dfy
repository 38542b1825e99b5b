/** The echo request of the connection check, and the Internet checksum of section 2 of RFC 1071. */
module Netpkt {
  import opened Bytes

  const WORD32: nat := 0x1_0000_0000

  type Port16 = n: nat | n < 0x1_0000

  // ---- the one's complement sum ----

  function Pair(hi: byte, lo: byte): Port16 {
    256 * (hi as int) + lo as int
  }

  /** The sum of the first n 16-bit words, most significant byte first. */
  function Words(b: Bytes, n: nat): nat
    requires 2 * n <= |b|
  {
    if n == 0 then 0 else Words(b, n - 1) + Pair(b[2 * n - 2], b[2 * n - 1])
  }

  /** The sum of all words, an odd last byte padded with a zero byte. */
  function WordSum(b: Bytes): nat {
    Words(b, |b| / 2) + if |b| % 2 == 1 then Pair(b[|b| - 1], 0) else 0
  }

  /** What end-around carry leaves of a sum: 0 for 0, else the residue modulo 65535 in [1, 65535]. */
  function Folded(sum: nat): (r: Port16)
  {
    if sum == 0 then 0 else 1 + (sum - 1) % 65535
  }

  /** What a uint32 keeps of a sum. */
  function Low32(n: nat): nat {
    n % WORD32
  }

  lemma Low32Sum(n: nat, x: nat)
    ensures Low32(Low32(n) + x) == Low32(n + x)
  {
  }

  /** The checksum of a byte string whose sum is kept in a uint32. */
  function Checksum(b: Bytes): Port16 {
    65535 - Folded(Low32(WordSum(b)))
  }

  lemma FoldStep(sum: nat)
    ensures Folded(sum / 0x1_0000 + sum % 0x1_0000) == Folded(sum)
  {
    var hi, lo := sum / 0x1_0000, sum % 0x1_0000;
    if sum > 0 {
      var k := (hi + lo - 1) / 65535;
      assert sum - 1 == (hi + k) * 65535 + (hi + lo - 1) % 65535;
      Residue(sum - 1, hi + k, (hi + lo - 1) % 65535);
    }
  }

  lemma Residue(n: nat, q: nat, r: nat)
    requires n == q * 65535 + r && r < 65535
    ensures n % 65535 == r
  {
  }

  /** checksum: sum the words in a uint32, fold the sum until it fits 16 bits, and complement it. */
  method ComputeChecksum(b: Bytes) returns (c: Port16)
    ensures c == Checksum(b)
  {
    var sum := Accumulate(b);
    var folded := Fold(sum);
    c := 65535 - folded;
  }

  /** The summing loop of checksum. */
  method Accumulate(b: Bytes) returns (sum: nat)
    ensures sum == Low32(WordSum(b))
  {
    hide Pair, Low32;
    sum := 0;
    assert Low32(0) == 0 by { Low32Zero(); }
    var i := 0;
    ghost var n := 0;
    while i + 1 < |b|
      invariant i == 2 * n <= |b| && sum == Low32(Words(b, n))
    {
      Low32Sum(Words(b, n), Pair(b[i], b[i + 1]));
      sum := Low32(sum + Pair(b[i], b[i + 1]));
      i, n := i + 2, n + 1;
    }
    assert n == |b| / 2;
    hide Words;
    if |b| % 2 == 1 {
      Low32Sum(Words(b, n), Pair(b[|b| - 1], 0));
      sum := Low32(sum + Pair(b[|b| - 1], 0));
    }
  }

  lemma Low32Zero()
    ensures Low32(0) == 0
  {
  }

  /** The fold loop of checksum. */
  method Fold(sum: nat) returns (r: Port16)
    ensures r == Folded(sum)
  {
    var s := sum;
    while s > 0xffff
      invariant Folded(s) == Folded(sum)
    {
      FoldStep(s);
      s := s / 0x1_0000 + s % 0x1_0000;
    }
    r := s;
  }

  lemma {:induction false} WordsBound(b: Bytes, n: nat)
    requires 2 * n <= |b|
    ensures Words(b, n) <= 65535 * n
  {
    if n > 0 {
      WordsBound(b, n - 1);
    }
  }

  /** The accumulator does not wrap on packets of up to 131074 bytes, twice the longest IPv4 packet. */
  lemma NoWrap(b: Bytes)
    requires |b| <= 131074
    ensures WordSum(b) < WORD32
  {
    WordsBound(b, |b| / 2);
  }

  /** b with word k set to c. */
  function WithWord(b: Bytes, k: nat, c: Port16): (r: Bytes)
    requires 2 * k + 1 < |b|
    ensures |r| == |b|
  {
    b[2 * k := c / 256][2 * k + 1 := c % 256]
  }

  lemma {:induction false} WordsWithWord(b: Bytes, k: nat, c: Port16, n: nat)
    requires 2 * k + 1 < |b| && b[2 * k] == 0 == b[2 * k + 1] && 2 * n <= |b|
    ensures Words(WithWord(b, k, c), n) == Words(b, n) + if k < n then c else 0
  {
    if n > 0 {
      WordsWithWord(b, k, c, n - 1);
    }
  }

  lemma SumWithWord(b: Bytes, k: nat, c: Port16)
    requires 2 * k + 1 < |b| && b[2 * k] == 0 == b[2 * k + 1]
    ensures WordSum(WithWord(b, k, c)) == WordSum(b) + c
  {
    WordsWithWord(b, k, c, |b| / 2);
  }

  /** A message carries its own checksum in a zeroed word: recomputing over it gives 0, whatever the message and its
      length. Adding the checksum never wraps the accumulator, because 2^32 - 1 is a multiple of 65535. */
  lemma RecomputeGivesZero(b: Bytes, k: nat)
    requires 2 * k + 1 < |b| && b[2 * k] == 0 == b[2 * k + 1]
    ensures Checksum(WithWord(b, k, Checksum(b))) == 0
  {
    hide WordSum, WithWord, Folded;
    var c, s := Checksum(b), Low32(WordSum(b));
    SumWithWord(b, k, c);
    FoldComplement(s);
    SumBelow(WordSum(b), c);
  }

  lemma SumBelow(n: nat, c: Port16)
    requires n % WORD32 + c < WORD32
    ensures (n + c) % WORD32 == n % WORD32 + c
  {
  }

  /** A 32-bit sum and its checksum fold to all ones, and fit 32 bits together. */
  lemma FoldComplement(s: nat)
    requires s < WORD32
    ensures Folded(s + (65535 - Folded(s))) == 65535 && s + (65535 - Folded(s)) < WORD32
  {
    var t := s + (65535 - Folded(s));
    if s > 0 {
      var q := (s - 1) / 65535;
      assert s - 1 == q * 65535 + (s - 1) % 65535;
      assert t == (q + 1) * 65535 && q <= 65536;
      Residue(t - 1, q, 65534);
    }
  }

  /** Within the length of IPv4 packets the standard's own condition holds: the unbounded one's complement sum over
      the message, its checksum included, is all ones. */
  lemma ChecksumVerifies(b: Bytes, k: nat)
    requires 2 * k + 1 < |b| <= 131074 && b[2 * k] == 0 == b[2 * k + 1]
    ensures Checksum(WithWord(b, k, Checksum(b))) == 0
    ensures Folded(WordSum(WithWord(b, k, Checksum(b)))) == 65535
  {
    NoWrap(b);
    NoWrap(WithWord(b, k, Checksum(b)));
    SumWithWord(b, k, Checksum(b));
    RecomputeGivesZero(b, k);
  }

  // ---- the echo request ----

  /** net.IP.To4: a 4-byte address, or a 16-byte one that maps an IPv4 address. */
  function To4(ip: Bytes): (r: Option<Bytes>)
    ensures r.Some? ==> |r.value| == 4
  {
    if |ip| == 4 then Some(ip)
    else if |ip| == 16 && (forall i :: 0 <= i < 10 ==> ip[i] == 0) && ip[10] == 255 == ip[11] then Some(ip[12..])
    else None
  }

  /** An address is IPv4 in its own form or as the last four bytes of the mapped form, and in no other. */
  lemma To4Exact(ip: Bytes, a: Bytes)
    ensures To4(ip) == Some(a) <==>
      |a| == 4 && (ip == a || ip == [0, 0, 0, 0, 0, 0, 0, 0, 0, 0, 255, 255] + a)
  {
    if |ip| == 16 {
      assert ip == ip[..12] + ip[12..];
    }
  }

  function Word(n: nat): (w: Bytes)
    ensures |w| == 2
  {
    [n / 256 % 256, n % 256]
  }

  /** The IPv4 header of section 3.1 of RFC 791 with no options, a time to live of 64 and protocol 1. */
  function Header(total: nat, id: Port16, src: Bytes, dst: Bytes, c: Port16): (h: Bytes)
    requires |src| == |dst| == 4
    ensures |h| == 20
  {
    [0x45, 0] + Word(total) + Word(id) + [0, 0, 64, 1] + Word(c) + src + dst
  }

  function Echo(id: Port16, seqno: Port16, payload: Bytes, c: Port16): (m: Bytes)
    ensures |m| == 8 + |payload|
  {
    [8, 0] + Word(c) + Word(id) + Word(seqno) + payload
  }

  lemma HeaderVerifies(total: nat, id: Port16, src: Bytes, dst: Bytes)
    requires |src| == |dst| == 4
    ensures var h := Header(total, id, src, dst, Checksum(Header(total, id, src, dst, 0)));
      Checksum(h) == 0 && Folded(WordSum(h)) == 65535
  {
    var h := Header(total, id, src, dst, 0);
    ChecksumVerifies(h, 5);
    assert WithWord(h, 5, Checksum(h)) == Header(total, id, src, dst, Checksum(h));
  }

  lemma EchoVerifies(id: Port16, seqno: Port16, payload: Bytes)
    ensures var m := Echo(id, seqno, payload, Checksum(Echo(id, seqno, payload, 0)));
      Checksum(m) == 0 && (|payload| <= 131066 ==> Folded(WordSum(m)) == 65535)
  {
    var m := Echo(id, seqno, payload, 0);
    RecomputeGivesZero(m, 1);
    assert WithWord(m, 1, Checksum(m)) == Echo(id, seqno, payload, Checksum(m));
    if |payload| <= 131066 {
      ChecksumVerifies(m, 1);
    }
  }

  /** binary.BigEndian.PutUint16, with the truncating conversion to uint16. */
  method PutUint16(a: array<byte>, k: nat, n: nat)
    requires k + 2 <= a.Length
    modifies a
    ensures a[k] == Word(n)[0] && a[k + 1] == Word(n)[1]
    ensures forall i :: 0 <= i < a.Length && i != k && i != k + 1 ==> a[i] == old(a[i])
  {
    a[k], a[k + 1] := n / 256 % 256, n % 256;
  }

  /** copy(a[k:], b) */
  method Copy(a: array<byte>, k: nat, b: Bytes)
    requires k + |b| <= a.Length
    modifies a
    ensures forall i :: k <= i < k + |b| ==> a[i] == b[i - k]
    ensures forall i :: 0 <= i < k || k + |b| <= i < a.Length ==> a[i] == old(a[i])
  {
    forall i | 0 <= i < |b| { a[k + i] := b[i]; }
  }

  /** A header, part by part. */
  lemma IsHeader(h: Bytes, total: nat, id: Port16, src: Bytes, dst: Bytes, c: Port16)
    requires |src| == |dst| == 4 && |h| == 20
    requires h[0] == 0x45 && h[1] == h[6] == h[7] == 0 && h[8] == 64 && h[9] == 1
    requires h[2] == Word(total)[0] && h[3] == Word(total)[1] && h[4] == Word(id)[0] && h[5] == Word(id)[1]
    requires h[10] == Word(c)[0] && h[11] == Word(c)[1]
    requires forall i :: 0 <= i < 4 ==> h[12 + i] == src[i] && h[16 + i] == dst[i]
    ensures h == Header(total, id, src, dst, c)
  {
    hide Word;
    assert h[2..4] == Word(total) && h[4..6] == Word(id) && h[10..12] == Word(c);
    assert h[12..16] == src && h[16..20] == dst;
    assert h == h[0..2] + h[2..4] + h[4..6] + h[6..10] + h[10..12] + h[12..16] + h[16..20];
  }

  /** The header with its checksum still zero. */
  method WriteFields(pkt: array<byte>, total: nat, id: Port16, src: Bytes, dst: Bytes)
    requires |src| == |dst| == 4 && pkt.Length >= 20 && forall i :: 0 <= i < 20 ==> pkt[i] == 0
    modifies pkt
    ensures pkt[..20] == Header(total, id, src, dst, 0)
    ensures forall i :: 20 <= i < pkt.Length ==> pkt[i] == old(pkt[i])
  {
    hide Header;
    pkt[0] := 0x45;
    PutUint16(pkt, 2, total);
    PutUint16(pkt, 4, id);
    pkt[8] := 64;
    pkt[9] := 1;
    ghost var fixed := pkt[..12];
    Copy(pkt, 12, src);
    Copy(pkt, 16, dst);
    assert pkt[..12] == fixed;
    IsHeader(pkt[..20], total, id, src, dst, 0);
  }

  method WriteHeader(pkt: array<byte>, total: nat, id: Port16, src: Bytes, dst: Bytes)
    requires |src| == |dst| == 4 && pkt.Length >= 20 && forall i :: 0 <= i < 20 ==> pkt[i] == 0
    modifies pkt
    ensures pkt[..20] == Header(total, id, src, dst, Checksum(Header(total, id, src, dst, 0)))
    ensures forall i :: 20 <= i < pkt.Length ==> pkt[i] == old(pkt[i])
  {
    WriteFields(pkt, total, id, src, dst);
    var c := ComputeChecksum(pkt[..20]);
    hide Checksum;
    ghost var before: Bytes := pkt[..20];
    PutUint16(pkt, 10, c);
    assert pkt[..20] == WithWord(before, 5, c);
    assert pkt[..20] == Header(total, id, src, dst, c);
  }

  method WriteEcho(pkt: array<byte>, id: Port16, seqno: Port16, payload: Bytes)
    requires pkt.Length == 28 + |payload| && forall i :: 20 <= i < pkt.Length ==> pkt[i] == 0
    modifies pkt
    ensures pkt[20..] == Echo(id, seqno, payload, Checksum(Echo(id, seqno, payload, 0)))
    ensures pkt[..20] == old(pkt[..20])
  {
    hide Checksum;
    pkt[20] := 8;
    PutUint16(pkt, 24, id);
    PutUint16(pkt, 26, seqno);
    Copy(pkt, 28, payload);
    assert pkt[28..] == payload;
    assert pkt[20..] == Echo(id, seqno, payload, 0);
    var c := ComputeChecksum(pkt[20..]);
    PutUint16(pkt, 22, c);
  }

  /** EchoRequest: a header and an echo message that each verify under their own checksum. */
  method EchoRequest(src: Bytes, dst: Bytes, id: Port16, seqno: Port16, payload: Bytes) returns (r: Result<Bytes>)
    ensures r.Ok? <==> To4(src).Some? && To4(dst).Some?
    ensures r.Ok? ==> var p := r.value;
      && |p| == 28 + |payload|
      && p[..20] == Header(|p|, id, To4(src).value, To4(dst).value, Pair(p[10], p[11]))
      && p[20..] == Echo(id, seqno, payload, Pair(p[22], p[23]))
      && IsRequest(p, To4(src).value, To4(dst).value, id, seqno, payload)
      && Checksum(p[..20]) == 0
      && Checksum(p[20..]) == 0
  {
    hide Checksum, Header, Echo, IsRequest;
    var src4, dst4 := To4(src), To4(dst);
    if src4.None? || dst4.None? {
      return Err(Malformed);
    }
    var total := 28 + |payload|;
    var pkt := new byte[total](_ => 0);
    WriteHeader(pkt, total, id, src4.value, dst4.value);
    WriteEcho(pkt, id, seqno, payload);
    r := Ok(pkt[..]);
    assert pkt[..][..20] == pkt[..20] && pkt[..][20..] == pkt[20..];
    RequestVerifies(pkt[..], total, id, seqno, src4.value, dst4.value, payload);
    ReadsBack(pkt[..], id, seqno, src4.value, dst4.value, payload);
  }

  /** What a reader of the two standards finds at the places of the fields. */
  ghost predicate IsRequest(p: Bytes, src: Bytes, dst: Bytes, id: Port16, seqno: Port16, payload: Bytes) {
    && |p| == 28 + |payload|
    && p[0] == 0x45 && p[1] == 0 && Pair(p[2], p[3]) == |p| % 0x1_0000 && Pair(p[4], p[5]) == id
    && Pair(p[6], p[7]) == 0 && p[8] == 64 && p[9] == 1 && p[12..16] == src && p[16..20] == dst
    && p[20] == 8 && p[21] == 0 && Pair(p[24], p[25]) == id && Pair(p[26], p[27]) == seqno && p[28..] == payload
  }

  lemma ReadsBack(p: Bytes, id: Port16, seqno: Port16, src: Bytes, dst: Bytes, payload: Bytes)
    requires |src| == |dst| == 4 && |p| == 28 + |payload|
    requires p[..20] == Header(|p|, id, src, dst, Pair(p[10], p[11]))
    requires p[20..] == Echo(id, seqno, payload, Pair(p[22], p[23]))
    ensures IsRequest(p, src, dst, id, seqno, payload)
  {
    HeaderReadsBack(p, |p|, id, src, dst, Pair(p[10], p[11]));
    EchoReadsBack(p, id, seqno, payload, Pair(p[22], p[23]));
    hide Header, Echo, Pair;
  }

  lemma HeaderReadsBack(p: Bytes, total: nat, id: Port16, src: Bytes, dst: Bytes, c: Port16)
    requires |src| == |dst| == 4 && |p| >= 20 && p[..20] == Header(total, id, src, dst, c)
    ensures p[0] == 0x45 && p[1] == 0 && Pair(p[2], p[3]) == total % 0x1_0000 && Pair(p[4], p[5]) == id
    ensures Pair(p[6], p[7]) == 0 && p[8] == 64 && p[9] == 1 && p[12..16] == src && p[16..20] == dst
  {
    var h := p[..20];
    assert h[12..16] == src && h[16..20] == dst && p[12..16] == h[12..16] && p[16..20] == h[16..20];
    assert forall i :: 0 <= i < 12 ==> p[i] == h[i];
    WordReadsBack(total);
    WordReadsBack(id);
  }

  lemma WordReadsBack(n: nat)
    ensures Pair(Word(n)[0], Word(n)[1]) == n % 0x1_0000
  {
    var q, hi, lo := n / 0x1_0000, n / 256 % 256, n % 256;
    assert n == 256 * (n / 256) + lo && n / 256 == 256 * (n / 256 / 256) + hi;
    assert n / 256 / 256 == q;
  }

  lemma EchoReadsBack(p: Bytes, id: Port16, seqno: Port16, payload: Bytes, c: Port16)
    requires |p| == 28 + |payload| && p[20..] == Echo(id, seqno, payload, c)
    ensures p[20] == 8 && p[21] == 0 && Pair(p[24], p[25]) == id && Pair(p[26], p[27]) == seqno && p[28..] == payload
  {
    var m := p[20..];
    assert m[8..] == payload && p[28..] == m[8..];
    assert forall i :: 0 <= i < 8 ==> p[20 + i] == m[i];
    WordReadsBack(id);
    WordReadsBack(seqno);
  }

  // ---- matching a probe ----

  datatype ProbeKind = NoMatch | EchoedBack | KernelReply

  /** isICMPEchoReply */
  function IsEchoReply(p: Bytes, wantSrc: Bytes, wantDst: Bytes, id: Port16, seqno: Port16): bool {
    |p| >= 28 && p[0] / 16 == 4 &&
    var ihl := p[0] % 16 * 4;
    && 20 <= ihl && ihl + 8 <= |p| && p[9] == 1
    && Some(p[12..16]) == To4(wantSrc) && Some(p[16..20]) == To4(wantDst)
    && p[ihl] == 0 && Pair(p[ihl + 4], p[ihl + 5]) == id && Pair(p[ihl + 6], p[ihl + 7]) == seqno
  }

  /** MatchProbe: an echo of the request itself, or the kernel's reply to it. */
  function MatchProbe(sent: Bytes, got: Bytes, client: Bytes, gateway: Bytes, id: Port16, seqno: Port16): ProbeKind {
    if got == [] then NoMatch
    else if sent == got then EchoedBack
    else if IsEchoReply(got, gateway, client, id, seqno) then KernelReply
    else NoMatch
  }

  /** The request with its addresses exchanged, its type that of a reply, and any other bytes in the checksums. */
  ghost predicate Replies(request: Bytes, reply: Bytes)
    requires |request| >= 28
  {
    && |reply| == |request| && reply[12..16] == request[16..20] && reply[16..20] == request[12..16] && reply[20] == 0
    && (forall i :: 0 <= i < 10 || 24 <= i < 28 ==> reply[i] == request[i])
  }

  /** A probe is matched by its own request and by any reply to it, and by no reply to a request with another
      identifier or sequence number. */
  lemma ProbeMatches(sent: Bytes, reply: Bytes, client: Bytes, gateway: Bytes, id: Port16, seqno: Port16,
                     otherId: Port16, other: Port16, payload: Bytes)
    requires To4(client).Some? && To4(gateway).Some?
    requires IsRequest(sent, To4(client).value, To4(gateway).value, otherId, other, payload) && Replies(sent, reply)
    ensures MatchProbe(sent, sent, client, gateway, id, seqno) == EchoedBack
    ensures MatchProbe(sent, reply, client, gateway, id, seqno) == KernelReply <==> id == otherId && seqno == other
  {
  }

  /** Where the two checksums can be read back. */
  lemma ChecksumFields(total: nat, id: Port16, seqno: Port16, src: Bytes, dst: Bytes, payload: Bytes, c: Port16,
                       d: Port16)
    requires |src| == |dst| == 4
    ensures var h, m := Header(total, id, src, dst, c), Echo(id, seqno, payload, d);
      Pair(h[10], h[11]) == c && Pair(m[2], m[3]) == d
  {
  }

  lemma RequestVerifies(p: Bytes, total: nat, id: Port16, seqno: Port16, src: Bytes, dst: Bytes, payload: Bytes)
    requires |src| == |dst| == 4 && |p| == 28 + |payload|
    requires p[..20] == Header(total, id, src, dst, Checksum(Header(total, id, src, dst, 0)))
    requires p[20..] == Echo(id, seqno, payload, Checksum(Echo(id, seqno, payload, 0)))
    ensures p[..20] == Header(total, id, src, dst, Pair(p[10], p[11]))
    ensures p[20..] == Echo(id, seqno, payload, Pair(p[22], p[23]))
    ensures Checksum(p[..20]) == 0 && Checksum(p[20..]) == 0
  {
    hide Checksum, Header, Echo, Pair;
    HeaderVerifies(total, id, src, dst);
    EchoVerifies(id, seqno, payload);
    var c, d := Checksum(Header(total, id, src, dst, 0)), Checksum(Echo(id, seqno, payload, 0));
    ChecksumFields(total, id, seqno, src, dst, payload, c, d);
    assert p[10] == p[..20][10] && p[11] == p[..20][11] && p[22] == p[20..][2] && p[23] == p[20..][3];
  }
}
