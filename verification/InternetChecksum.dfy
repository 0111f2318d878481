/** The Internet checksum (packet.c, RFC 1071 section 1) and the IP headers and TCP segments that carry it
    (packet.c, tcp.c; RFC 791 section 3.1, RFC 793 section 3.1). */
module InternetChecksum {
  import opened Wrappers

  /** The range of unsigned int. */
  const INTS := 0x1_0000_0000

  // ---------- sums of 16-bit words ----------

  function Word(hi: Byte, lo: Byte): (w: nat)
    ensures w < 0x1_0000
  {
    hi * 256 + lo
  }

  /** The sum of the words of s, high byte first; an odd byte is padded with zero. */
  function WordSum(s: seq<Byte>): nat {
    if s == [] then 0
    else if |s| == 1 then Word(s[0], 0)
    else Word(s[0], s[1]) + WordSum(s[2..])
  }

  lemma {:induction false} WordSumBound(s: seq<Byte>)
    ensures WordSum(s) <= 0xffff * ((|s| + 1) / 2)
  {
    if |s| >= 2 {
      WordSumBound(s[2..]);
    }
  }

  /** Carries are added in again until 16 bits are left. */
  function Fold(s: nat): (r: nat)
    ensures r < 0x1_0000
  {
    if s < 0x1_0000 then s else Fold(s % 0x1_0000 + s / 0x1_0000)
  }

  lemma Carry(s: nat)
    requires s >= 0x1_0000
    ensures 0 < s % 0x1_0000 + s / 0x1_0000 < s
    ensures (s % 0x1_0000 + s / 0x1_0000) % 0xffff == s % 0xffff
  {
    var q, r := s / 0x1_0000, s % 0x1_0000;
    assert s == 0xffff * q + (q + r);
    AddMultiple(q + r, q, 0xffff);
  }

  /** Folding finds the sum modulo 65535, and 0 only for 0: it is the ones' complement sum. */
  lemma {:induction false} FoldIs(s: nat)
    ensures Fold(s) % 0xffff == s % 0xffff && (Fold(s) == 0 <==> s == 0)
  {
    if s >= 0x1_0000 {
      Carry(s);
      FoldIs(s % 0x1_0000 + s / 0x1_0000);
    }
  }

  /** What header_checksum16 makes of the words of s and an initial sum. */
  function Checksum(s: seq<Byte>, sum: nat): (c: nat)
    ensures c < 0x1_0000
  {
    0xffff - Fold(sum + WordSum(s))
  }

  /** The checksum is zero exactly when the ones' complement sum is all ones. */
  lemma ChecksumZero(s: seq<Byte>, sum: nat)
    ensures Checksum(s, sum) == 0 <==> sum + WordSum(s) > 0 && (sum + WordSum(s)) % 0xffff == 0
  {
    FoldIs(sum + WordSum(s));
  }

  /** No sum of words of a buffer of up to 65535 bytes overflows 32 bits, even with 2^31 to start from. */
  lemma NoOverflow(s: seq<Byte>, sum: nat)
    requires |s| <= 0xffff && sum <= 0x8000_0000
    ensures sum + WordSum(s) < INTS
  {
    WordSumBound(s);
  }

  /** header_checksum16, with the sum kept in 32 bits. */
  method HeaderChecksum16(buf: seq<Byte>, len0: nat, sum0: nat) returns (c: nat)
    requires len0 <= |buf| && len0 <= 0xffff && sum0 <= 0x8000_0000
    ensures c == Checksum(buf[..len0], sum0)
  {
    hide WordSum, Word, Fold;
    NoOverflow(buf[..len0], sum0);
    var sum: int, len: int, at := sum0, len0, 0;
    assert buf[0..len0] == buf[..len0];
    while len > 1
      invariant 0 <= at && 0 <= sum && 0 <= len && at + len == len0 && sum + WordSum(buf[at..len0]) == sum0
                  + WordSum(buf[..len0])
    {
      NextWord(buf, at, len0);
      NoWrap(sum + Word(buf[at], buf[at + 1]));
      sum := (sum + Word(buf[at], buf[at + 1])) % INTS;
      at, len := at + 2, len - 2;
    }
    LastWord(buf, at, len0);
    if len != 0 {
      NoWrap(sum + Word(buf[at], 0));
      sum := (sum + Word(buf[at], 0)) % INTS;
    }
    ghost var total := sum;
    while sum / 0x1_0000 != 0
      invariant 0 <= sum < INTS && Fold(sum) == Fold(total)
      decreases sum
    {
      Carry(sum);
      FoldStep(sum);
      sum := sum % 0x1_0000 + sum / 0x1_0000;
    }
    FoldStep(sum);
    c := 0xffff - sum;
  }

  lemma NextWord(s: seq<Byte>, at: nat, end: nat)
    requires at + 2 <= end <= |s|
    ensures WordSum(s[at..end]) == Word(s[at], s[at + 1]) + WordSum(s[at + 2..end])
  {
    var rest := s[at..end];
    assert rest[2..] == s[at + 2..end];
  }

  lemma LastWord(s: seq<Byte>, at: nat, end: nat)
    requires at <= end <= at + 1 && end <= |s|
    ensures WordSum(s[at..end]) == if at < end then Word(s[at], 0) else 0
  {
  }

  lemma NoWrap(x: nat)
    requires x < INTS
    ensures x % INTS == x
  {
  }

  lemma FoldStep(s: nat)
    ensures Fold(s) == if s < 0x1_0000 then s else Fold(s % 0x1_0000 + s / 0x1_0000)
  {
  }

  // ---------- the checksum field ----------

  function WithField(s: seq<Byte>, at: nat, c: nat): (t: seq<Byte>)
    requires at + 2 <= |s| && c < 0x1_0000
    ensures |t| == |s|
  {
    s[at := c / 256][at + 1 := c % 256]
  }

  lemma {:induction false} WordReplaced(s: seq<Byte>, at: nat, c: nat)
    requires at % 2 == 0 && at + 2 <= |s| && c < 0x1_0000
    ensures WordSum(WithField(s, at, c)) + Word(s[at], s[at + 1]) == WordSum(s) + c
    decreases at
  {
    var t := WithField(s, at, c);
    assert Word(c / 256, c % 256) == c;
    if at == 0 {
      assert t[2..] == s[2..];
    } else {
      WordReplaced(s[2..], at - 2, c);
      assert t[2..] == WithField(s[2..], at - 2, c);
    }
  }

  /** A checksum put into a zeroed field makes the checksum of the whole come out as zero, for every even
      position and every length. */
  lemma FieldMakesZero(s: seq<Byte>, at: nat, sum: nat)
    requires at % 2 == 0 && at + 2 <= |s| && s[at] == s[at + 1] == 0
    ensures Checksum(WithField(s, at, Checksum(s, sum)), sum) == 0
  {
    var total, c := sum + WordSum(s), Checksum(s, sum);
    var t := WithField(s, at, c);
    WordReplaced(s, at, c);
    FoldIs(total);
    ChecksumZero(t, sum);
    Complement(total, Fold(total));
  }

  lemma Complement(total: nat, f: nat)
    requires f <= 0xffff && f % 0xffff == total % 0xffff
    ensures (total + 0xffff - f) % 0xffff == 0
  {
    var q := total / 0xffff - f / 0xffff + 1;
    assert total + 0xffff - f == 0xffff * q;
    AddMultiple(0, q, 0xffff);
  }

  lemma Difference(a: nat, b: nat)
    ensures (b - a) % 0xffff == 0 <==> b % 0xffff == a % 0xffff
  {
    var i, j := a / 0xffff, b / 0xffff;
    assert b - a == (b % 0xffff - a % 0xffff) + 0xffff * (j - i);
    AddMultiple(b % 0xffff - a % 0xffff, j - i, 0xffff);
  }

  lemma SmallMultiple(d: int)
    requires -0xffff <= d <= 0xffff
    ensures d % 0xffff == 0 <==> d == 0 || d == 0xffff || d == -0xffff
  {
  }

  /** A change of one word of a good buffer goes unnoticed only between 0x0000 and 0xffff. */
  lemma OneWordDetected(s: seq<Byte>, at: nat, w: nat, sum: nat)
    requires at % 2 == 0 && at + 2 <= |s| && w < 0x1_0000 && Checksum(s, sum) == 0
    ensures var v, t := Word(s[at], s[at + 1]), WithField(s, at, w);
            Checksum(t, sum) == 0
            <==> w == v || (w == 0xffff && v == 0) || (w == 0 && v == 0xffff && sum + WordSum(t) > 0)
  {
    var v, total := Word(s[at], s[at + 1]), sum + WordSum(s);
    WordReplaced(s, at, w);
    ChecksumZero(s, sum);
    ChecksumZero(WithField(s, at, w), sum);
    hide WordSum, WithField, Checksum;
    Difference(total, total + w - v);
    SmallMultiple(w - v);
  }

  // ---------- headers, byte by byte ----------

  function Bytes16(v: nat): (b: seq<Byte>)
    ensures |b| == 2
  {
    [v / 0x100 % 0x100, v % 0x100]
  }

  function Bytes32(v: nat): (b: seq<Byte>)
    ensures |b| == 4
  {
    [v / 0x100_0000 % 0x100, v / 0x1_0000 % 0x100, v / 0x100 % 0x100, v % 0x100]
  }

  /** Bytes are written behind the header h that starts at position at. */
  method Append(buf: array<Byte>, at: nat, ghost h: seq<Byte>, len: nat, bytes: seq<Byte>)
    requires |h| == len && at + len + |bytes| <= buf.Length && buf[at..at + len] == h
    modifies buf
    ensures buf[at..at + len + |bytes|] == h + bytes
    ensures forall i | 0 <= i < buf.Length && !(at + len <= i < at + len + |bytes|) :: buf[i] == old(buf[i])
  {
    for i := 0 to |bytes|
      invariant buf[at..at + len] == h && buf[at + len..at + len + i] == bytes[..i]
      invariant forall i | 0 <= i < buf.Length && !(at + len <= i < at + len + |bytes|) :: buf[i] == old(buf[i])
    {
      buf[at + len + i] := bytes[i];
    }
    assert buf[at..at + len + |bytes|] == buf[at..at + len] + buf[at + len..at + len + |bytes|];
  }

  /** The two bytes of a checksum are stored. */
  method StoreField(buf: array<Byte>, at: nat, c: nat)
    requires at + 2 <= buf.Length && c < 0x1_0000
    modifies buf
    ensures buf[..] == WithField(old(buf[..]), at, c)
  {
    buf[at] := c / 0x100 % 0x100;
    buf[at + 1] := c % 0x100;
  }

  lemma FieldInPart(s: seq<Byte>, from: nat, to: nat, at: nat, c: nat)
    requires from <= to <= |s| && from + at + 2 <= to && c < 0x1_0000
    ensures WithField(s, from + at, c)[from..to] == WithField(s[from..to], at, c)
    ensures WithField(s, from + at, c)[..from] == s[..from] && WithField(s, from + at, c)[to..] == s[to..]
  {
  }

  /** The header that ip_header writes, before the checksum is put in. */
  function IpFields(ipLen: nat, id: nat, proto: Byte, src: seq<Byte>, dst: seq<Byte>): (h: seq<Byte>)
    requires |src| == |dst| == 4
    ensures |h| == 20 && h[10] == h[11] == 0
  {
    [0x45, 0] + Bytes16(ipLen) + Bytes16(id) + [0, 0, 64, proto, 0, 0] + src + dst
  }

  /** ip_header, at position at of buf: what it writes has checksum zero (RFC 791), and nothing else is
      written. */
  method IpHeader(buf: array<Byte>, at: nat, target: seq<Byte>, self: seq<Byte>, ipLen: nat, id: nat, proto: Byte)
    requires |target| == |self| == 4 && at + 20 <= buf.Length
    modifies buf
    ensures Checksum(buf[at..at + 20], 0) == 0
    ensures var h := IpFields(ipLen, id, proto, self, target); buf[at..at + 20] == WithField(h, 10, Checksum(h, 0))
    ensures buf[..at] == old(buf[..at]) && buf[at + 20..] == old(buf[at + 20..])
  {
    hide Checksum, Bytes16;
    ghost var h := IpFields(ipLen, id, proto, self, target);
    WriteIpFields(buf, at, target, self, ipLen, id, proto);
    ghost var was := buf[..];
    var c := HeaderChecksum16(buf[at..at + 20], 20, 0);
    assert buf[at..at + 20][..20] == h;
    FieldInPart(was, at, at + 20, 10, c);
    FieldMakesZero(h, 10, 0);
    StoreField(buf, at + 10, c);
  }

  method WriteIpFields(buf: array<Byte>, at: nat, target: seq<Byte>, self: seq<Byte>, ipLen: nat, id: nat, proto: Byte)
    requires |target| == |self| == 4 && at + 20 <= buf.Length
    modifies buf
    ensures buf[at..at + 20] == IpFields(ipLen, id, proto, self, target)
    ensures forall i | 0 <= i < buf.Length && !(at <= i < at + 20) :: buf[i] == old(buf[i])
  {
    hide Bytes16;
    Append(buf, at, [], 0, [0x45, 0]);
    ghost var h := [0x45, 0];
    Append(buf, at, h, 2, Bytes16(ipLen));
    h := h + Bytes16(ipLen);
    Append(buf, at, h, 4, Bytes16(id));
    h := h + Bytes16(id);
    Append(buf, at, h, 6, [0, 0, 64, proto, 0, 0]);
    h := h + [0, 0, 64, proto, 0, 0];
    Append(buf, at, h, 12, self);
    h := h + self;
    Append(buf, at, h, 16, target);
  }

  // ---------- TCP ----------

  const TCP := 6

  /** What tcp_checksum adds for the pseudo header (RFC 793). */
  function PseudoSum(src: seq<Byte>, dst: seq<Byte>, len: nat): nat
    requires |src| == |dst| == 4
  {
    WordSum(src) + WordSum(dst) + TCP + len
  }

  lemma {:induction false} WordSumFront(s: seq<Byte>, t: seq<Byte>)
    requires |s| % 2 == 0
    ensures WordSum(s + t) == WordSum(s) + WordSum(t)
    decreases |s|
  {
    if s == [] {
      assert s + t == t;
    } else {
      WordSumFront(s[2..], t);
      assert (s + t)[2..] == s[2..] + t;
    }
  }

  /** That is the checksum of the segment behind the pseudo header of RFC 793, section 3.1: the two addresses, a
      zero byte, the protocol number 6 and the length of the segment. */
  lemma PseudoHeader(s: seq<Byte>, src: seq<Byte>, dst: seq<Byte>, len: nat)
    requires |src| == |dst| == 4 && len <= 0xffff
    ensures Checksum(s, PseudoSum(src, dst, len)) == Checksum(src + dst + [0, 6, len / 256, len % 256] + s, 0)
  {
    var rest := [0, 6, len / 256, len % 256];
    WordSumFront(src + dst + rest, s);
    WordSumFront(src + dst, rest);
    WordSumFront(src, dst);
    AddressSum(rest);
  }

  /** tcp_checksum; a length of 0 stands for the length of the received segment. */
  method TcpChecksum(buf: seq<Byte>, src: seq<Byte>, dst: seq<Byte>, tcpLen: nat, lenTcp: nat) returns (c: nat)
    requires |src| == |dst| == 4 && tcpLen <= 0xffff && lenTcp <= 0xffff
    requires (if lenTcp == 0 then tcpLen else lenTcp) <= |buf|
    ensures var len := if lenTcp == 0 then tcpLen else lenTcp;
            && c == Checksum(buf[..len], PseudoSum(src, dst, len))
            && c == Checksum(src + dst + [0, 6, len / 256, len % 256] + buf[..len], 0)
  {
    hide Checksum;
    var len := if lenTcp == 0 then tcpLen else lenTcp;
    AddressSum(src);
    AddressSum(dst);
    var sum := Word(src[0], src[1]) + Word(src[2], src[3]);
    sum := sum + Word(dst[0], dst[1]) + Word(dst[2], dst[3]);
    sum := sum + TCP + len;
    c := HeaderChecksum16(buf, len, sum);
    PseudoHeader(buf[..len], src, dst, len);
  }

  lemma AddressSum(ip: seq<Byte>)
    requires |ip| == 4
    ensures WordSum(ip) == Word(ip[0], ip[1]) + Word(ip[2], ip[3]) <= 0x1_fffe
  {
    assert WordSum(ip[2..][2..]) == 0;
    assert WordSum(ip[2..]) == Word(ip[2], ip[3]);
  }

  /** The fields of rx_packet that a reply is made from. */
  datatype Received = Received(srcIp: seq<Byte>, dstIp: seq<Byte>, srcPort: nat, dstPort: nat, seqNo: nat, flags: nat,
                               window: nat, payloadLen: nat, timeStamp: nat) {
    predicate Addressed() { |srcIp| == |dstIp| == 4 }
  }

  const FIN := 0x01
  const SYN := 0x02
  const RST := 0x04
  const ACK := 0x10

  /** socket_t, the fields tcp_header uses */
  class Socket {
    var rx: Received
    var txSeq: nat
    var rxSeq: nat
    var rxInitSeq: nat
    var disconnect: bool
    var reset: bool

    constructor (rx: Received, txSeq: nat)
      ensures this.rx == rx && this.txSeq == txSeq
    {
      this.rx, this.txSeq, rxSeq, rxInitSeq, disconnect, reset := rx, txSeq, 0, 0, false, false;
    }
  }

  function PortsAndNumbers(rx: Received, txSeq: nat, ack: nat): (h: seq<Byte>)
    ensures |h| == 12
  {
    Bytes16(rx.dstPort) + Bytes16(rx.srcPort) + Bytes32(txSeq) + Bytes32(ack)
  }

  /** The fields of the header that tcp_header writes, before the checksum is put in. */
  function TcpFields(rx: Received, txSeq: nat, ack: nat, disconnect: bool, reset: bool, isNew: bool): (h: seq<Byte>)
    ensures |h| == (if isNew then 40 else 20) && h[16] == h[17] == 0
  {
    PortsAndNumbers(rx, txSeq, ack)
    + [if isNew then 0xa0 else 0x50, ACK + (if isNew then SYN else 0) + (if disconnect then FIN else 0)
        + (if reset then RST else 0)]
    + Bytes16(rx.window) + [0, 0, 0, 0] + if isNew then Options(rx.timeStamp) else []
  }

  /** Where the fields stand (RFC 793, section 3.1): the ports change places, the length of the header is in its
      words, the flags are ACK, SYN, FIN and RST. */
  lemma TcpFieldsAre(rx: Received, txSeq: nat, ack: nat, disconnect: bool, reset: bool, isNew: bool)
    ensures var h := TcpFields(rx, txSeq, ack, disconnect, reset, isNew);
            && Word(h[0], h[1]) == rx.dstPort % 0x1_0000 && Word(h[2], h[3]) == rx.srcPort % 0x1_0000
            && Word(h[4], h[5]) * 0x1_0000 + Word(h[6], h[7]) == txSeq % 0x1_0000_0000
            && Word(h[8], h[9]) * 0x1_0000 + Word(h[10], h[11]) == ack % 0x1_0000_0000
            && h[12] / 16 * 4 == |h| && h[12] % 16 == 0
            && h[13] == 16 + (if isNew then 2 else 0) + (if disconnect then 1 else 0) + (if reset then 4 else 0)
            && Word(h[14], h[15]) == rx.window % 0x1_0000 && h[18] == h[19] == 0
  {
    Bytes16Are(rx.dstPort);
    Bytes16Are(rx.srcPort);
    Bytes32Are(txSeq);
    Bytes32Are(ack);
    Bytes16Are(rx.window);
    var h := TcpFields(rx, txSeq, ack, disconnect, reset, isNew);
    hide Bytes16, Bytes32, Options, Word;
    assert h[..2] == Bytes16(rx.dstPort) && h[2..4] == Bytes16(rx.srcPort);
    assert h[4..8] == Bytes32(txSeq) && h[8..12] == Bytes32(ack) && h[14..16] == Bytes16(rx.window);
  }

  lemma Bytes16Are(v: nat)
    ensures var b := Bytes16(v); Word(b[0], b[1]) == v % 0x1_0000
  {
    var a, r := v / 0x100, v % 0x100;
    var c, s := a / 0x100, a % 0x100;
    assert v == 0x100 * a + r && a == 0x100 * c + s;
    RemainderIs(v, c, s * 0x100 + r, 0x1_0000);
  }

  lemma Bytes32Are(v: nat)
    ensures var b := Bytes32(v); Word(b[0], b[1]) * 0x1_0000 + Word(b[2], b[3]) == v % 0x1_0000_0000
  {
    var c := v / 0x1_0000;
    Bytes16Are(v);
    Bytes16Are(c);
    QuotientTwice(v);
    assert v == 0x1_0000 * c + v % 0x1_0000 && c == 0x1_0000 * (c / 0x1_0000) + c % 0x1_0000;
    RemainderIs(v, c / 0x1_0000, c % 0x1_0000 * 0x1_0000 + v % 0x1_0000, 0x1_0000_0000);
    hide Word;
  }

  lemma QuotientTwice(v: nat)
    ensures v / 0x100_0000 == v / 0x1_0000 / 0x100
  {
    var c := v / 0x1_0000;
    var d := c / 0x100;
    assert v == 0x1_0000 * c + v % 0x1_0000 && c == 0x100 * d + c % 0x100;
    RemainderIs(v, d, c % 0x100 * 0x1_0000 + v % 0x1_0000, 0x100_0000);
  }

  /** Where the fields of an IP header stand (RFC 791, section 3.1): version 4 and five words of header, the
      length, 64 hops to live, the protocol and the addresses. */
  lemma IpFieldsAre(ipLen: nat, id: nat, proto: Byte, src: seq<Byte>, dst: seq<Byte>)
    requires |src| == |dst| == 4
    ensures var h := IpFields(ipLen, id, proto, src, dst);
            && h[0] / 16 == 4 && h[0] % 16 * 4 == |h| && h[1] == 0
            && Word(h[2], h[3]) == ipLen % 0x1_0000 && Word(h[4], h[5]) == id % 0x1_0000 && Word(h[6], h[7]) == 0
            && h[8] == 64 && h[9] == proto && h[12..16] == src && h[16..20] == dst
  {
    Bytes16Are(ipLen);
    Bytes16Are(id);
    IpFieldsAt(ipLen, id, proto, src, dst);
    hide Bytes16, IpFields;
  }

  lemma IpFieldsAt(ipLen: nat, id: nat, proto: Byte, src: seq<Byte>, dst: seq<Byte>)
    requires |src| == |dst| == 4
    ensures var h, l, n := IpFields(ipLen, id, proto, src, dst), Bytes16(ipLen), Bytes16(id);
            && h[0] == 0x45 && h[1] == 0 && h[2] == l[0] && h[3] == l[1] && h[4] == n[0] && h[5] == n[1]
            && h[6] == h[7] == 0 && h[8] == 64 && h[9] == proto && h[12..16] == src && h[16..20] == dst
  {
    hide Bytes16;
  }

  /** Maximum segment size, SACK permitted, time stamp, window scale */
  function Options(timeStamp: nat): (o: seq<Byte>)
    ensures |o| == 20
  {
    [0x02, 0x04, 0x05, 0xb4, 0x04, 0x02, 0x08, 0x0a, 0x00, 0x61, 0x1f, 0xc6] + Bytes32(timeStamp)
        + [0x01, 0x03, 0x03, 0x06]
  }

  /** The acknowledgement number: one more for SYN and FIN, else past the payload. */
  function AckNumber(rx: Received, isNew: bool): nat {
    (rx.seqNo + if isNew || rx.flags % 2 == 1 then 1 else rx.payloadLen) % INTS
  }

  method WritePortsAndNumbers(buf: array<Byte>, at: nat, rx: Received, txSeq: nat, ack: nat)
    requires at + 12 <= buf.Length
    modifies buf
    ensures buf[at..at + 12] == PortsAndNumbers(rx, txSeq, ack)
    ensures forall i | 0 <= i < buf.Length && !(at <= i < at + 12) :: buf[i] == old(buf[i])
  {
    hide Bytes16, Bytes32;
    Append(buf, at, [], 0, Bytes16(rx.dstPort));
    ghost var h := Bytes16(rx.dstPort);
    Append(buf, at, h, 2, Bytes16(rx.srcPort));
    h := h + Bytes16(rx.srcPort);
    Append(buf, at, h, 4, Bytes32(txSeq));
    h := h + Bytes32(txSeq);
    Append(buf, at, h, 8, Bytes32(ack));
  }

  method WriteTcpFields(buf: array<Byte>, at: nat, rx: Received, txSeq: nat, ack: nat, disconnect: bool, reset: bool,
                        isNew: bool)
    requires at + (if isNew then 40 else 20) <= buf.Length
    modifies buf
    ensures var h := TcpFields(rx, txSeq, ack, disconnect, reset, isNew);
            && buf[at..at + |h|] == h
            && forall i | 0 <= i < buf.Length && !(at <= i < at + |h|) :: buf[i] == old(buf[i])
  {
    hide Bytes16, Options, PortsAndNumbers;
    WritePortsAndNumbers(buf, at, rx, txSeq, ack);
    ghost var h := PortsAndNumbers(rx, txSeq, ack);
    var flags := ACK + (if isNew then SYN else 0) + (if disconnect then FIN else 0) + (if reset then RST else 0);
    var offset: seq<Byte> := [if isNew then 0xa0 else 0x50, flags];
    Append(buf, at, h, 12, offset);
    h := h + offset;
    Append(buf, at, h, 14, Bytes16(rx.window));
    h := h + Bytes16(rx.window);
    Append(buf, at, h, 16, [0, 0, 0, 0]);
    h := h + [0, 0, 0, 0];
    if isNew {
      Append(buf, at, h, 20, Options(rx.timeStamp));
    }
  }

  function HeaderLength(isNew: bool): nat { if isNew then 40 else 20 }

  /** tcp_header, at position at of buf, in front of a payload that is there already: with the addresses of
      the segment replied to, the segment has checksum zero. */
  method TcpHeader(buf: array<Byte>, at: nat, s: Socket, payloadLen: nat, isNew: bool) returns (startingSeq: nat)
    requires s.rx.Addressed() && HeaderLength(isNew) + payloadLen <= 0xffff && at + HeaderLength(isNew)
               + payloadLen <= buf.Length
    modifies buf, s`txSeq, s`rxSeq, s`rxInitSeq
    ensures startingSeq == old(s.txSeq) && s.txSeq == (old(s.txSeq) + payloadLen) % INTS
    ensures s.rxSeq == AckNumber(s.rx, isNew)
            == (s.rx.seqNo + if isNew || s.rx.flags % 2 == 1 then 1 else s.rx.payloadLen) % 0x1_0000_0000
    ensures s.rxInitSeq == if isNew then s.rx.seqNo else old(s.rxInitSeq)
    ensures var h, n := HeaderLength(isNew), HeaderLength(isNew) + payloadLen;
            var fields := TcpFields(s.rx, old(s.txSeq), AckNumber(s.rx, isNew), s.disconnect, s.reset, isNew);
            var whole, pseudo := fields + old(buf[at + h..at + n]), PseudoSum(s.rx.srcIp, s.rx.dstIp, n);
            && buf[at..at + n] == WithField(whole, 16, Checksum(whole, pseudo))
            && Checksum(buf[at..at + n], pseudo) == 0
            && buf[..at] == old(buf[..at]) && buf[at + n..] == old(buf[at + n..])
  {
    hide Checksum, PseudoSum, TcpFields;
    startingSeq := s.txSeq;
    s.txSeq := (s.txSeq + payloadLen) % INTS;
    var ack := (s.rx.seqNo + if isNew || s.rx.flags % 2 == 1 then 1 else s.rx.payloadLen) % INTS;
    if isNew {
      s.rxInitSeq := s.rx.seqNo;
    }
    s.rxSeq := ack;
    ghost var before := buf[..];
    WriteTcpFields(buf, at, s.rx, startingSeq, ack, s.disconnect, s.reset, isNew);
    var len := HeaderLength(isNew) + payloadLen;
    Whole(before, buf[..], at, HeaderLength(isNew), len);
    StoreTcpChecksum(buf, at, len, s.rx.srcIp, s.rx.dstIp);
  }

  /** The last steps of tcp_header */
  method StoreTcpChecksum(buf: array<Byte>, at: nat, len: nat, src: seq<Byte>, dst: seq<Byte>)
    requires |src| == |dst| == 4 && 18 <= len <= 0xffff && at + len <= buf.Length && buf[at + 16] == buf[at + 17] == 0
    modifies buf
    ensures var whole, pseudo := old(buf[at..at + len]), PseudoSum(src, dst, len);
            && buf[at..at + len] == WithField(whole, 16, Checksum(whole, pseudo))
            && Checksum(buf[at..at + len], pseudo) == 0
    ensures buf[..at] == old(buf[..at]) && buf[at + len..] == old(buf[at + len..])
  {
    hide Checksum, PseudoSum;
    ghost var was := buf[..];
    var part := buf[at..];
    var c := TcpChecksum(part, src, dst, 0, len);
    assert part == was[at..|was|] && part[..len] == part[0..len];
    PartOfPart(was, at, |was|, 0, len);
    FieldInPart(was, at, at + len, 16, c);
    FieldMakesZero(was[at..at + len], 16, PseudoSum(src, dst, len));
    StoreField(buf, at + 16, c);
  }


  lemma Whole(before: seq<Byte>, now: seq<Byte>, at: nat, h: nat, n: nat)
    requires h <= n && at + n <= |before| == |now|
    requires forall i | 0 <= i < |now| && !(at <= i < at + h) :: now[i] == before[i]
    ensures now[at..at + n] == now[at..at + h] + before[at + h..at + n]
    ensures now[..at] == before[..at] && now[at + n..] == before[at + n..]
  {
  }

  /** The length of a segment, in the 16 bits that tcp_checksum takes it in. */
  function SegmentLength(ipLen: nat, header: nat): (n: nat)
    ensures n <= 0xffff
  {
    (ipLen - header) % 0x1_0000
  }

  /** What parse_ip_packet and parse_tcp_packet make of an Ethernet frame: the lengths and addresses come
      from the IP header, and the segment is taken when its checksum is zero. */
  predicate Accepted(frame: seq<Byte>) {
    |frame| >= 34 &&
    var header, ipLen := frame[14] % 16 * 4, Word(frame[16], frame[17]);
    var n := SegmentLength(ipLen, header);
    && 14 + header + n <= |frame|
    && Checksum(frame[14 + header..14 + header + n], PseudoSum(frame[26..30], frame[30..34], n)) == 0
  }

  /** The check of parse_tcp_packet, on memory that holds as many bytes as the lengths in the header say. */
  method ParseTcpPacket(buf: seq<Byte>, src: seq<Byte>, dst: seq<Byte>, ipLen: nat, ipHeaderLen: nat)
    returns (good: bool)
    requires |src| == |dst| == 4 && SegmentLength(ipLen, ipHeaderLen * 4) <= |buf|
    ensures var n := SegmentLength(ipLen, ipHeaderLen * 4);
            good <==> Checksum(buf[..n], PseudoSum(src, dst, n)) == 0
  {
    var tcpLen := SegmentLength(ipLen, ipHeaderLen * 4);
    var c := TcpChecksum(buf, src, dst, tcpLen, 0);
    good := c == 0;
  }

  /** The two pairs of addresses have the same ones' complement sum. */
  predicate SameSum(src: seq<Byte>, dst: seq<Byte>, src': seq<Byte>, dst': seq<Byte>) {
    (WordSum(src) + WordSum(dst)) % 0xffff == (WordSum(src') + WordSum(dst')) % 0xffff
  }

  lemma Congruent(a: nat, b: nat, w: nat)
    requires (a + w) % 0xffff == 0
    ensures (b + w) % 0xffff == 0 <==> b % 0xffff == a % 0xffff
  {
    var q := (a + w) / 0xffff;
    assert b + w == (b - a) + 0xffff * q;
    AddMultiple(b - a, q, 0xffff);
    Difference(a, b);
  }

  /** A segment whose checksum is zero for one pair of addresses has checksum zero for another exactly when
      the pairs have the same sum; so swapping the two makes no difference. */
  lemma OtherAddresses(s: seq<Byte>, src: seq<Byte>, dst: seq<Byte>, src': seq<Byte>, dst': seq<Byte>, n: nat)
    requires |src| == |dst| == |src'| == |dst'| == 4 && Checksum(s, PseudoSum(src, dst, n)) == 0
    ensures Checksum(s, PseudoSum(src', dst', n)) == 0 <==> SameSum(src, dst, src', dst')
  {
    var a, b := WordSum(src) + WordSum(dst), WordSum(src') + WordSum(dst');
    var w := TCP + n + WordSum(s);
    ChecksumZero(s, PseudoSum(src, dst, n));
    ChecksumZero(s, PseudoSum(src', dst', n));
    hide WordSum;
    Congruent(a, b, w);
  }

  /** A segment with checksum zero for the addresses rxSrc and rxDst, behind a header of ip_header that goes
      from src to dst, is accepted at the other end exactly when the two pairs have the same sum. */
  lemma SegmentAcceptedIff(frame: seq<Byte>, c: nat, n: nat, src: seq<Byte>, dst: seq<Byte>,
                           rxSrc: seq<Byte>, rxDst: seq<Byte>, id: nat)
    requires |src| == |dst| == |rxSrc| == |rxDst| == 4 && 20 + n <= 0xffff && c < 0x1_0000 && |frame| == 34 + n
    requires frame[14..34] == WithField(IpFields(20 + n, id, TCP, src, dst), 10, c)
    requires Checksum(frame[34..34 + n], PseudoSum(rxSrc, rxDst, n)) == 0
    ensures Accepted(frame) <==> SameSum(rxSrc, rxDst, src, dst)
  {
    hide IpFields, WithField, Checksum, PseudoSum, SameSum, Bytes16, Accepted;
    HeaderSays(frame[14..34], c, 20 + n, src, dst, id);
    PartOfPart(frame, 14, 34, 12, 16);
    PartOfPart(frame, 14, 34, 16, 20);
    Header(frame, frame[14..34]);
    AcceptedSays(frame, n, src, dst);
    OtherAddresses(frame[34..34 + n], rxSrc, rxDst, src, dst, n);
  }

  lemma HeaderSays(w: seq<Byte>, c: nat, ipLen: nat, src: seq<Byte>, dst: seq<Byte>, id: nat)
    requires |src| == |dst| == 4 && ipLen <= 0xffff && c < 0x1_0000
    requires w == WithField(IpFields(ipLen, id, TCP, src, dst), 10, c)
    ensures |w| == 20 && w[0] == 0x45 && Word(w[2], w[3]) == ipLen && w[12..16] == src && w[16..20] == dst
  {
    assert [w[2], w[3]] == Bytes16(ipLen);
  }

  lemma Header(frame: seq<Byte>, w: seq<Byte>)
    requires |frame| >= 34 && w == frame[14..34]
    ensures frame[14] == w[0] && frame[16] == w[2] && frame[17] == w[3]
  {
  }

  lemma AcceptedSays(frame: seq<Byte>, n: nat, src: seq<Byte>, dst: seq<Byte>)
    requires |src| == |dst| == 4 && 20 + n <= 0xffff && |frame| == 34 + n
    requires frame[14] == 0x45 && Word(frame[16], frame[17]) == 20 + n && frame[26..30] == src && frame[30..34] == dst
    ensures Accepted(frame) <==> Checksum(frame[34..34 + n], PseudoSum(src, dst, n)) == 0
  {
    hide Checksum, PseudoSum;
  }

  /** tcp_reply: the segment is summed with the addresses of the packet last received for the socket, and
      sent to the address stored when its connection was opened. It is accepted at the other end exactly
      when these have the same ones' complement sum. */
  method TcpReply(buf: array<Byte>, s: Socket, payload: seq<Byte>, destIp: seq<Byte>, selfIp: seq<Byte>, id: nat)
    requires s.rx.Addressed() && |destIp| == |selfIp| == 4
    requires 40 + |payload| <= 0xffff && 54 + |payload| <= buf.Length
    modifies buf, s`txSeq, s`rxSeq, s`rxInitSeq
    ensures Accepted(buf[..54 + |payload|]) <==> SameSum(s.rx.srcIp, s.rx.dstIp, selfIp, destIp)
    ensures Checksum(buf[14..34], 0) == 0
    ensures buf[54..54 + |payload|] == payload && s.txSeq == (old(s.txSeq) + |payload|) % INTS
    ensures buf[..14] == old(buf[..14]) && buf[54 + |payload|..] == old(buf[54 + |payload|..])
  {
    hide Checksum, PseudoSum, Accepted, TcpFields, IpFields, SameSum;
    ghost var before := buf[..];
    var p := |payload|;
    Append(buf, 54, [], 0, payload);
    ghost var filled := buf[..];
    var _ := TcpHeader(buf, 34, s, p, false);
    ghost var segment := buf[34..54 + p];
    ghost var sent := buf[..];
    IpHeader(buf, 14, destIp, selfIp, 40 + p, id, TCP);
    ghost var now := buf[..];
    Untouched(before, filled, sent, now, p, payload);
    ReplyAccepted(now, p, selfIp, destIp, s.rx.srcIp, s.rx.dstIp, id);
  }

  /** A packet is taken only if it was sent to this host. What then decides is whether the reply goes to
      where the packet came from, or to an address with the same sum. */
  lemma ReplyAddress(rxSrc: seq<Byte>, self: seq<Byte>, dest: seq<Byte>)
    ensures SameSum(rxSrc, self, self, dest) <==> WordSum(rxSrc) % 0xffff == WordSum(dest) % 0xffff
  {
    var a, b, w := WordSum(rxSrc), WordSum(dest), WordSum(self);
    Difference(a + w, w + b);
    Difference(a, b);
  }

  /** The socket's connection was opened by 10.0.0.2, and a packet with the same source port came from
      10.0.0.1: the reply, built for the one and sent to the other, is rejected. So is the answer to a FIN
      on a socket where nothing was opened, when the address it was never given is another one. */
  lemma OtherHostRejected(frame: seq<Byte>, c: nat, n: nat, self: seq<Byte>, id: nat)
    requires |self| == 4 && 20 + n <= 0xffff && c < 0x1_0000 && |frame| == 34 + n
    requires frame[14..34] == WithField(IpFields(20 + n, id, TCP, self, [10, 0, 0, 2]), 10, c)
    requires Checksum(frame[34..34 + n], PseudoSum([10, 0, 0, 1], self, n)) == 0
    ensures !Accepted(frame)
  {
    hide Checksum, PseudoSum, Accepted, IpFields, WithField;
    SegmentAcceptedIff(frame, c, n, self, [10, 0, 0, 2], [10, 0, 0, 1], self, id);
    ReplyAddress([10, 0, 0, 1], self, [10, 0, 0, 2]);
    AddressSum([10, 0, 0, 1]);
    AddressSum([10, 0, 0, 2]);
  }

  lemma ReplyAccepted(now: seq<Byte>, p: nat, self: seq<Byte>, dest: seq<Byte>,
                      rxSrc: seq<Byte>, rxDst: seq<Byte>, id: nat)
    requires |self| == |dest| == |rxSrc| == |rxDst| == 4 && 40 + p <= 0xffff && 54 + p <= |now|
    requires var h := IpFields(40 + p, id, TCP, self, dest); now[14..34] == WithField(h, 10, Checksum(h, 0))
    requires Checksum(now[34..54 + p], PseudoSum(rxSrc, rxDst, 20 + p)) == 0
    ensures Accepted(now[..54 + p]) <==> SameSum(rxSrc, rxDst, self, dest)
  {
    hide PseudoSum, Accepted, SameSum;
    FrameParts(now, p);
    var h := IpFields(40 + p, id, TCP, self, dest);
    SegmentAcceptedIff(now[..54 + p], Checksum(h, 0), 20 + p, self, dest, rxSrc, rxDst, id);
  }

  lemma FrameParts(now: seq<Byte>, p: nat)
    requires 54 + p <= |now|
    ensures now[..54 + p][14..34] == now[14..34] && now[..54 + p][34..54 + p] == now[34..54 + p]
  {
  }

  lemma Untouched(before: seq<Byte>, filled: seq<Byte>, sent: seq<Byte>, now: seq<Byte>, p: nat, payload: seq<Byte>)
    requires |before| == |filled| == |sent| == |now| && 54 + p <= |now| && |payload| == p
    requires filled[54..54 + p] == payload
    requires forall i | 0 <= i < |filled| && !(54 <= i < 54 + p) :: filled[i] == before[i]
    requires sent[..34] == filled[..34] && sent[54 + p..] == filled[54 + p..] && sent[54..54 + p] == filled[54..54 + p]
    requires now[..14] == sent[..14] && now[34..] == sent[34..]
    ensures now[34..54 + p] == sent[34..54 + p] && now[54..54 + p] == payload
    ensures now[..14] == before[..14] && now[54 + p..] == before[54 + p..]
  {
    assert now[34..54 + p] == now[34..][..20 + p] == sent[34..][..20 + p];
    assert now[54..54 + p] == now[34..54 + p][20..] == sent[54..54 + p];
    assert now[54 + p..] == now[34..][20 + p..] == sent[54 + p..];
    assert now[..14] == sent[..34][..14] == filled[..34][..14];
  }
}
