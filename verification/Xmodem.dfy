/** The XMODEM receiver (xmodem.c) on the results of _inbyte, and its safety against a stop-and-wait sender
    over an unreliable line. */
module Xmodem {
  import Crc16
  import opened Wrappers

  const SOH: Byte := 0x01
  const STX: Byte := 0x02
  const EOT: Byte := 0x04
  const ACK: Byte := 0x06
  const NAK: Byte := 0x15
  const CAN: Byte := 0x18
  const MAX_RETRANS := 25
  const TRIES := 80

  // ---------- frames ----------

  /** The bytes as 16-bit operands of the CRC. */
  function Operands(b: seq<Byte>): (r: seq<Crc16.Byte>)
    ensures |r| == |b|
  {
    seq(|b|, i requires 0 <= i < |b| => b[i] as bv16)
  }

  function Sum(b: seq<Byte>): nat {
    if b == [] then 0 else Sum(b[..|b| - 1]) + b[|b| - 1]
  }

  /** check: the payload is followed by its CRC or by its sum modulo 256. */
  predicate Passes(crc: bool, payload: seq<Byte>, end: seq<Byte>)
    requires |end| == if crc then 2 else 1
  {
    if crc then Crc16.CrcMatches(Operands(payload + end)) else end[0] == Sum(payload) % 256
  }

  lemma OperandsPrefix(b: seq<Byte>, n: nat)
    requires n <= |b|
    ensures Operands(b)[..n] == Operands(b[..n])
  {
  }

  /** The sum is that of the bytes, whichever way they are added up. */
  lemma {:induction false} SumOfBoth(a: seq<Byte>, b: seq<Byte>)
    ensures Sum(a + b) == Sum(a) + Sum(b)
    ensures |b| == 1 ==> Sum(b) == b[0]
    decreases |b|
  {
    if b == [] {
      assert a + b == a;
    } else {
      var n := |b| - 1;
      SumOfBoth(a, b[..n]);
      assert (a + b)[..|a| + n] == a + b[..n];
    }
  }

  /** The check without a CRC finds every change of a single byte. */
  lemma SumFindsByte(payload: seq<Byte>, end: seq<Byte>, i: nat, b: Byte)
    requires |end| == 1 && i < |payload| && b != payload[i] && Passes(false, payload, end)
    ensures !Passes(false, payload[i := b], end)
  {
    var left, right := payload[..i], payload[i + 1..];
    SumOfBoth(left, [payload[i]]);
    SumOfBoth(left + [payload[i]], right);
    SumOfBoth(left, [b]);
    SumOfBoth(left + [b], right);
    assert left + [payload[i]] + right == payload && left + [b] + right == payload[i := b];
    hide Sum;
    DifferentBytes(Sum(left) + Sum(right), payload[i], b);
  }

  lemma DifferentBytes(s: nat, a: Byte, b: Byte)
    requires a != b
    ensures (s + a) % 256 != (s + b) % 256
  {
    RemainderIs(s, s / 256, s % 256, 256);
  }

  lemma AddSum(s: nat, b: Byte)
    ensures (s % 256 + b) % 256 == (s + b) % 256
  {
  }

  lemma CrcPasses(buf: seq<Byte>, sz: nat)
    requires sz + 2 <= |buf|
    ensures var operands := Operands(buf);
            Passes(true, buf[..sz], buf[sz..sz + 2])
            <==> Crc16.Crc(operands[..sz]) == Crc16.TwoBytes(operands[sz], operands[sz + 1])
  {
    hide Operands, Crc16.Crc, Crc16.TwoBytes;
    var operands, frame := Operands(buf), buf[..sz + 2];
    assert buf[..sz] + buf[sz..sz + 2] == frame;
    OperandsPrefix(buf, sz + 2);
    assert Operands(frame)[..sz] == operands[..sz];
    assert Operands(frame)[sz] == operands[sz] && Operands(frame)[sz + 1] == operands[sz + 1];
  }

  /** check, for the first sz bytes of buf. */
  method Check(crc: bool, buf: seq<Byte>, sz: nat) returns (ok: bool)
    requires sz + (if crc then 2 else 1) <= |buf|
    ensures ok == Passes(crc, buf[..sz], buf[sz..sz + if crc then 2 else 1])
  {
    if crc {
      var operands := Operands(buf);
      hide Operands;
      var c := Crc16.Crc16Ccitt(operands, sz);
      var tcrc := Crc16.TwoBytes(operands[sz], operands[sz + 1]);
      ok := c == tcrc;
      CrcPasses(buf, sz);
    } else {
      var cks: int := 0;
      assert buf[..0] == [];
      for i := 0 to sz
        invariant cks == Sum(buf[..i]) % 256
      {
        assert buf[..i + 1][..i] == buf[..i];
        AddSum(Sum(buf[..i]), buf[i]);
        cks := (cks + buf[i]) % 256;
      }
      ok := cks == buf[sz];
    }
  }

  /** What a frame says once it has been found good. */
  datatype Frame = Frame(number: Byte, payload: seq<Byte>)

  /** The bytes of a good frame. */
  ghost predicate IsFrame(bytes: seq<Byte>, crc: bool, f: Frame) {
    var sz := if |bytes| > 0 && bytes[0] == SOH then 128 else 1024;
    && |bytes| == 3 + sz + (if crc then 2 else 1)
    && (bytes[0] == SOH || bytes[0] == STX)
    && bytes[1] == f.number && bytes[2] == 255 - bytes[1]
    && bytes[3..3 + sz] == f.payload && Passes(crc, f.payload, bytes[3 + sz..])
  }

  // ---------- what the receiver does with good frames ----------

  /** packetno, dest[..len] and retrans */
  datatype Receiver = Receiver(packetno: Byte, data: seq<Byte>, retrans: int)

  const START := Receiver(1, [], MAX_RETRANS)

  /** The number is that of the next packet or of the one before; (unsigned char)packetno - 1 is -1 when
      packetno is 0, which no byte is. */
  predicate Wanted(r: Receiver, number: Byte) {
    number == r.packetno || number == r.packetno - 1
  }

  function NextNumber(n: Byte): Byte { ((n as int) + 1) % 256 }

  function Accept(r: Receiver, f: Frame, destsz: nat): Receiver {
    if f.number != r.packetno then r.(retrans := r.retrans - 1)
    else
      var room := destsz - |r.data|;
      var count := if room > |f.payload| then |f.payload| else room;
      Receiver(NextNumber(r.packetno), if count > 0 then r.data + f.payload[..count] else r.data, MAX_RETRANS)
  }

  function AcceptAll(frames: seq<Frame>, destsz: nat): Receiver {
    if frames == [] then START else Accept(AcceptAll(frames[..|frames| - 1], destsz), frames[|frames| - 1], destsz)
  }

  /** Each frame was wanted when it came, and the last but one at the latest left tries. */
  predicate Wellreceived(frames: seq<Frame>, destsz: nat) {
    frames == [] ||
    (var before := frames[..|frames| - 1];
     && Wellreceived(before, destsz) && Wanted(AcceptAll(before, destsz), frames[|frames| - 1].number)
     && AcceptAll(before, destsz).retrans > 0)
  }

  predicate AreBytes(s: seq<int>) { forall i | 0 <= i < |s| :: 0 <= s[i] < 256 }

  function ToBytes(s: seq<int>): (b: seq<Byte>)
    requires AreBytes(s)
    ensures |b| == |s| && forall i | 0 <= i < |s| :: b[i] == s[i]
  {
    seq(|s|, i requires 0 <= i < |s| => s[i])
  }

  /** A stretch of the input is frame f. */
  ghost predicate Stretch(input: seq<int>, from: nat, to: nat, crc: bool, f: Frame) {
    from <= to <= |input| && AreBytes(input[from..to]) && IsFrame(ToBytes(input[from..to]), crc, f)
  }

  function Length(crc: bool, f: Frame): nat { 3 + |f.payload| + if crc then 2 else 1 }

  /** The i-th frame is a stretch of the input that ends before the next one starts, or by position pos. */
  ghost predicate Placed(input: seq<int>, crc: bool, frames: seq<Frame>, starts: seq<nat>, pos: nat, i: nat)
    requires |starts| == |frames| && i < |frames|
  {
    var end := starts[i] + Length(crc, frames[i]);
    Stretch(input, starts[i], end, crc, frames[i]) && end <= if i + 1 < |frames| then starts[i + 1] else pos
  }

  /** The frames are stretches of the input, one after the other. */
  ghost predicate FromInput(input: seq<int>, crc: bool, frames: seq<Frame>, starts: seq<nat>, pos: nat) {
    |starts| == |frames| && forall i: nat | i < |frames| :: Placed(input, crc, frames, starts, pos, i)
  }

  lemma FromInputMore(input: seq<int>, crc: bool, frames: seq<Frame>, starts: seq<nat>, pos: nat, from: nat, f: Frame)
    requires FromInput(input, crc, frames, starts, pos) && pos <= from
    requires Stretch(input, from, from + Length(crc, f), crc, f)
    ensures FromInput(input, crc, frames + [f], starts + [from], from + Length(crc, f))
  {
    hide Stretch;
    var fs, ss, end := frames + [f], starts + [from], from + Length(crc, f);
    forall i: nat | i < |fs|
      ensures Placed(input, crc, fs, ss, end, i)
    {
      assert i < |frames| ==> Placed(input, crc, frames, starts, pos, i);
    }
  }

  // ---------- the code ----------

  /** What _inbyte will return, call by call: a byte, or -1 when none comes in time; at the end of the
      sequence nothing more comes. */
  predicate IsInput(input: seq<int>) { forall i | 0 <= i < |input| :: -1 <= input[i] < 256 }

  method InByte(input: seq<int>, pos: nat) returns (c: int, next: nat)
    requires IsInput(input) && pos <= |input|
    ensures c == (if pos < |input| then input[pos] else -1) && next == (if pos < |input| then pos + 1 else pos)
  {
    c, next := -1, pos;
    if pos < |input| {
      c, next := input[pos], pos + 1;
    }
  }

  /** flushinput */
  method FlushInput(input: seq<int>, pos: nat) returns (next: nat)
    requires IsInput(input) && pos <= |input|
    ensures pos <= next <= |input|
  {
    var c;
    c, next := InByte(input, pos);
    while c >= 0
      invariant pos <= next <= |input| && (c >= 0 ==> 0 < next)
      decreases |input| - next + if c >= 0 then 1 else 0
    {
      c, next := InByte(input, next);
    }
  }

  function Acks(replies: seq<Byte>): nat {
    if replies == [] then 0 else Acks(replies[..|replies| - 1]) + if replies[|replies| - 1] == ACK then 1 else 0
  }

  lemma AcksMore(replies: seq<Byte>, b: Byte)
    ensures Acks(replies + [b]) == Acks(replies) + if b == ACK then 1 else 0
  {
    assert (replies + [b])[..|replies|] == replies;
  }

  method OutByte(replies: seq<Byte>, b: Byte) returns (more: seq<Byte>)
    ensures more == replies + [b] && Acks(more) == Acks(replies) + if b == ACK then 1 else 0
  {
    AcksMore(replies, b);
    more := replies + [b];
  }

  datatype Outcome = Packet | Ended | Cancelled | Nothing

  /** What at most so many tries find from pos on, and where they end. */
  function Scan(input: seq<int>, pos: nat, tries: nat): (r: (Outcome, nat))
    requires pos <= |input|
    ensures pos <= r.1 <= |input|
    decreases tries
  {
    if tries == 0 then (Nothing, pos)
    else if pos == |input| then Scan(input, pos, tries - 1)
    else if input[pos] == SOH || input[pos] == STX then (Packet, pos + 1)
    else if input[pos] == EOT then (Ended, pos + 1)
    else if input[pos] == CAN && pos + 1 < |input| then
      if input[pos + 1] == CAN then (Cancelled, pos + 2) else Scan(input, pos + 2, tries - 1)
    else Scan(input, pos + 1, tries - 1)
  }

  /** A byte that starts nothing, or none in time. */
  predicate IsNoise(c: int) { c != SOH && c != STX && c != EOT && c != CAN }

  /** Behind fewer bytes of noise than there are tries, the next byte that starts something decides. */
  lemma {:induction false} ScanFinds(input: seq<int>, pos: nat, at: nat, tries: nat)
    requires pos <= at < |input| && at - pos < tries && forall j | pos <= j < at :: IsNoise(input[j])
    ensures input[at] == SOH || input[at] == STX ==> Scan(input, pos, tries) == (Packet, at + 1)
    ensures input[at] == EOT ==> Scan(input, pos, tries) == (Ended, at + 1)
    ensures input[at] == CAN && at + 1 < |input| && input[at + 1] == CAN ==>
              Scan(input, pos, tries) == (Cancelled, at + 2)
    decreases tries
  {
    if pos < at {
      ScanFinds(input, pos + 1, at, tries - 1);
    }
  }

  /** As many tries without such a byte find nothing. */
  lemma {:induction false} ScanFindsNothing(input: seq<int>, pos: nat, tries: nat)
    requires pos <= |input| && forall j | pos <= j < pos + tries && j < |input| :: IsNoise(input[j])
    ensures Scan(input, pos, tries).0 == Nothing
    decreases tries
  {
    if tries > 0 {
      ScanFindsNothing(input, if pos < |input| then pos + 1 else pos, tries - 1);
    }
  }

  /** What is found is there. */
  lemma {:induction false} FoundIsThere(input: seq<int>, pos: nat, tries: nat)
    requires pos <= |input|
    ensures var (outcome, next) := Scan(input, pos, tries);
            match outcome
            case Packet => pos < next && (input[next - 1] == SOH || input[next - 1] == STX)
            case Ended => pos < next && input[next - 1] == EOT
            case Cancelled => pos + 1 < next && input[next - 2] == input[next - 1] == CAN
            case Nothing => true
    decreases tries
  {
    if tries > 0 {
      FoundIsThere(input, pos, tries - 1);
      if pos < |input| {
        FoundIsThere(input, pos + 1, tries - 1);
      }
      if pos + 1 < |input| {
        FoundIsThere(input, pos + 2, tries - 1);
      }
    }
  }

  /** The retry loop: it waits for the first byte of a packet, for EOT or for two CANs. */
  method AwaitStart(input: seq<int>, pos: nat, trychar: Byte, replies: seq<Byte>)
    returns (outcome: Outcome, c: int, next: nat, more: seq<Byte>)
    requires IsInput(input) && pos <= |input| && trychar != ACK
    ensures pos <= next <= |input| && Acks(more) == Acks(replies) && (outcome, next) == Scan(input, pos, TRIES)
    ensures outcome.Packet? ==> (c == SOH || c == STX) && pos < next && input[next - 1] == c
    ensures outcome.Ended? ==> pos < next && input[next - 1] == EOT
    ensures outcome.Cancelled? ==> pos + 1 < next && input[next - 2] == input[next - 1] == CAN
  {
    next, more, c := pos, replies, -1;
    var retry := 0;
    while retry < TRIES
      invariant 0 <= retry <= TRIES && pos <= next <= |input| && Acks(more) == Acks(replies)
      invariant Scan(input, pos, TRIES) == Scan(input, next, TRIES - retry)
    {
      if trychar != 0 {
        more := OutByte(more, trychar);
      }
      c, next := InByte(input, next);
      if c == SOH || c == STX {
        return Packet, c, next, more;
      } else if c == EOT {
        return Ended, c, next, more;
      } else if c == CAN {
        c, next := InByte(input, next);
        if c == CAN {
          return Cancelled, c, next, more;
        }
      }
      retry := retry + 1;
    }
    outcome := Nothing;
  }

  /** The rest of a packet is read into xbuff behind its first byte; it fails when a byte does not come. */
  method ReadPacket(input: seq<int>, pos: nat, c: Byte, xbuff: array<Byte>, n: nat) returns (complete: bool, next: nat)
    requires IsInput(input) && 0 < pos <= |input| && input[pos - 1] == c && n < xbuff.Length
    modifies xbuff
    ensures pos <= next <= |input|
    ensures complete ==>
              && next == pos + n && AreBytes(input[pos - 1..next])
              && xbuff[..n + 1] == ToBytes(input[pos - 1..next])
    ensures pos + n <= |input| && (forall j | pos <= j < pos + n :: 0 <= input[j]) ==> complete
  {
    next, complete := pos, true;
    xbuff[0] := c;
    var i := 0;
    while i < n
      invariant 0 <= i <= n && next == pos + i <= |input|
      invariant forall j | pos - 1 <= j < next :: 0 <= input[j] && xbuff[j - (pos - 1)] == input[j]
    {
      var b;
      b, next := InByte(input, next);
      if b < 0 {
        return false, next;
      }
      xbuff[i + 1] := b;
      i := i + 1;
    }
    ghost var s := input[pos - 1..next];
    assert forall k | 0 <= k < |s| :: s[k] == input[pos - 1 + k] && 0 <= s[k] < 256 && xbuff[k] == s[k];
  }

  /** memcpy (&dest[len], &xbuff[3], count) */
  method CopyPayload(dest: array<Byte>, len: nat, xbuff: array<Byte>, count: nat)
    requires dest != xbuff && len + count <= dest.Length && 3 + count <= xbuff.Length
    modifies dest
    ensures dest[..len] == old(dest[..len]) && dest[len..len + count] == xbuff[3..3 + count]
    ensures dest[len + count..] == old(dest[len + count..])
  {
    for k := 0 to count
      invariant dest[..len] == old(dest[..len]) && dest[len..len + k] == xbuff[3..3 + k]
      invariant dest[len + k..] == old(dest[len + k..])
    {
      dest[len + k] := xbuff[3 + k];
    }
  }

  /** A packet that has come in whole is good when it repeats its number complemented, the number is
      wanted and the payload passes the check. */
  method Validate(xbuff: array<Byte>, bufsz: nat, crc: bool, packetno: Byte) returns (good: bool)
    requires bufsz + 5 <= xbuff.Length && bufsz == (if xbuff[0] == SOH then 128 else 1024)
    requires xbuff[0] == SOH || xbuff[0] == STX
    ensures var n := bufsz + 3 + (if crc then 2 else 1);
            var f := Frame(xbuff[1], xbuff[3..3 + bufsz]);
            good <==> IsFrame(xbuff[..n], crc, f) && (f.number == packetno || f.number == packetno - 1)
  {
    hide Passes;
    good := xbuff[1] == 255 - xbuff[2] && (xbuff[1] == packetno || xbuff[1] == packetno - 1);
    if good {
      Slices(xbuff[..], bufsz, if crc then 2 else 1);
      good := Check(crc, xbuff[3..], bufsz);
    }
  }

  /** A good frame, said of its bytes. */
  lemma FrameMeans(bytes: seq<Byte>, sz: nat, crc: bool)
    requires |bytes| == sz + 3 + (if crc then 2 else 1) && (bytes[0] == SOH || bytes[0] == STX)
    requires sz == if bytes[0] == SOH then 128 else 1024
    ensures IsFrame(bytes, crc, Frame(bytes[1], bytes[3..3 + sz]))
            <==> && bytes[2] == 255 - bytes[1]
                 && if crc then Crc16.CrcMatches(Operands(bytes[3..]))
                    else bytes[sz + 3] == Sum(bytes[3..sz + 3]) % 256
  {
    hide Sum, Operands, Crc16.CrcMatches;
    assert bytes[3..3 + sz] + bytes[3 + sz..] == bytes[3..];
  }

  /** The memory of a receiver that has got as far as r. */
  ghost predicate Holds(dest: seq<Byte>, before: seq<Byte>, r: Receiver, destsz: nat) {
    && |dest| == |before| && |r.data| <= destsz <= |dest|
    && dest[..|r.data|] == r.data && dest[|r.data|..] == before[|r.data|..]
  }

  lemma HoldsMore(was: seq<Byte>, dest: seq<Byte>, before: seq<Byte>, r: Receiver, f: Frame, destsz: nat, count: nat)
    requires Holds(was, before, r, destsz) && f.number == r.packetno
    requires count == (if destsz - |r.data| > |f.payload| then |f.payload| else destsz - |r.data|)
    requires |dest| == |was|
    requires var len := |r.data|;
             && dest[..len] == was[..len] && dest[len..len + count] == f.payload[..count]
             && dest[len + count..] == was[len + count..]
    ensures Holds(dest, before, Accept(r, f, destsz), destsz) && |Accept(r, f, destsz).data| == |r.data| + count
  {
    var len := |r.data|;
    assert dest[..len + count] == dest[..len] + dest[len..len + count];
    assert dest[len + count..] == was[len..][count..] == before[len..][count..] == before[len + count..];
  }

  lemma Slices(s: seq<Byte>, sz: nat, e: nat)
    requires 3 + sz + e <= |s|
    ensures s[..sz + 3 + e][3 + sz..] == s[3..][sz..sz + e]
    ensures s[..sz + 3 + e][3..3 + sz] == s[3..][..sz] == s[3..3 + sz]
  {
    var n := sz + 3 + e;
    PartOfPart(s, 0, n, 3 + sz, n);
    PartOfPart(s, 3, |s|, sz, sz + e);
    PartOfPart(s, 0, n, 3, 3 + sz);
    PartOfPart(s, 3, |s|, 0, sz);
    assert s[..n] == s[0..n] && s[3..] == s[3..|s|];
  }

  /** A good packet is taken: its payload is kept when its number is the next one. */
  method Take(dest: array<Byte>, destsz: nat, xbuff: array<Byte>, bufsz: nat, packetno: Byte, len: nat, retrans: int,
              ghost before: seq<Byte>, ghost r: Receiver)
    returns (packetno': Byte, len': nat, retrans': int)
    requires dest != xbuff && 3 + bufsz <= xbuff.Length && Holds(dest[..], before, r, destsz)
    requires r.packetno == packetno && |r.data| == len && r.retrans == retrans
    modifies dest
    ensures var r' := Accept(r, Frame(xbuff[1], xbuff[3..3 + bufsz]), destsz);
            && Holds(dest[..], before, r', destsz)
            && packetno' == r'.packetno && len' == |r'.data| && retrans' == r'.retrans
  {
    ghost var f, was := Frame(xbuff[1], xbuff[3..3 + bufsz]), dest[..];
    packetno', len', retrans' := packetno, len, retrans;
    if xbuff[1] == packetno {
      var count := destsz - len;
      if count > bufsz {
        count := bufsz;
      }
      PartOfPart(xbuff[..], 3, 3 + bufsz, 0, count);
      assert xbuff[3..3 + bufsz] == xbuff[..][3..3 + bufsz] && xbuff[3..3 + count] == xbuff[..][3..3 + count];
      assert f.payload[..count] == xbuff[3..3 + count];
      if count > 0 {
        CopyPayload(dest, len, xbuff, count);
        len' := len + count;
      }
      HoldsMore(was, dest[..], before, r, f, destsz, count);
      packetno' := NextNumber(packetno);
      retrans' := MAX_RETRANS + 1;
    }
    retrans' := retrans' - 1;
  }


  /** The receiver between two packets: the good frames so far are where they stand in the input, each was
      wanted, and the variables are what they make. */
  ghost predicate Receiving(input: seq<int>, pos: nat, crc: bool, frames: seq<Frame>, starts: seq<nat>, destsz: nat,
          r: Receiver) {
    && FromInput(input, crc, frames, starts, pos) && Wellreceived(frames, destsz) && r == AcceptAll(frames, destsz)
  }

  lemma ReceivingLater(input: seq<int>, pos: nat, later: nat, crc: bool, frames: seq<Frame>, starts: seq<nat>,
          destsz: nat, r: Receiver)
    requires Receiving(input, pos, crc, frames, starts, destsz, r) && pos <= later
    ensures Receiving(input, later, crc, frames, starts, destsz, r)
  {
    hide Stretch;
    forall i: nat | i < |frames|
      ensures Placed(input, crc, frames, starts, later, i)
    {
      assert Placed(input, crc, frames, starts, pos, i);
    }
  }

  lemma ReceivingMore(input: seq<int>, pos: nat, from: nat, crc: bool, frames: seq<Frame>, starts: seq<nat>,
          destsz: nat, r: Receiver, f: Frame)
    requires Receiving(input, pos, crc, frames, starts, destsz, r) && pos <= from && r.retrans > 0
    requires Stretch(input, from, from + Length(crc, f), crc, f) && Wanted(r, f.number)
    ensures Receiving(input, from + Length(crc, f), crc, frames + [f], starts + [from], destsz, Accept(r, f, destsz))
  {
    FromInputMore(input, crc, frames, starts, pos, from, f);
    assert (frames + [f])[..|frames|] == frames;
  }

  lemma ReceivingStart(input: seq<int>, crc: bool, destsz: nat, before: seq<Byte>)
    requires destsz <= |before|
    ensures Receiving(input, 0, crc, [], [], destsz, START) && Holds(before, before, START, destsz)
  {
  }

  lemma ReceivingMode(input: seq<int>, pos: nat, crc: bool, crc': bool, destsz: nat, r: Receiver)
    requires Receiving(input, pos, crc, [], [], destsz, r)
    ensures Receiving(input, pos, crc', [], [], destsz, r)
  {
  }

  lemma ReceivingIs(input: seq<int>, pos: nat, crc: bool, frames: seq<Frame>, starts: seq<nat>, destsz: nat,
          r: Receiver)
    requires Receiving(input, pos, crc, frames, starts, destsz, r)
    ensures r == AcceptAll(frames, destsz) && |starts| == |frames| && FromInput(input, crc, frames, starts, pos)
  {
  }

  /** A frame is as long as its first byte says, and all its bytes come in time. */
  lemma StretchBytes(input: seq<int>, pos: nat, c: Byte, crc: bool, g: Frame)
    requires 0 < pos <= |input| && input[pos - 1] == c
    requires Stretch(input, pos - 1, pos - 1 + Length(crc, g), crc, g)
    ensures var n := (if c == SOH then 128 else 1024) + (if crc then 1 else 0) + 3;
            && pos - 1 + Length(crc, g) == pos + n <= |input| && forall j | pos <= j < pos + n :: 0 <= input[j]
  {
    var s := input[pos - 1..pos - 1 + Length(crc, g)];
    assert ToBytes(s)[0] == s[0] == c;
    assert forall j | pos <= j < pos - 1 + |s| :: input[j] == s[j - pos + 1];
  }

  lemma FrameInBytes(bytes: seq<Byte>, crc: bool, f: Frame, g: Frame, sz: nat)
    requires |bytes| == 3 + sz + (if crc then 2 else 1) && sz == if bytes[0] == SOH then 128 else 1024
    requires f == Frame(bytes[1], bytes[3..3 + sz])
    ensures IsFrame(bytes, crc, g) ==> g == f
    ensures IsFrame(bytes, crc, f) ==> Length(crc, f) == |bytes|
  {
  }

  /** A packet is read, and taken when it is good. */
  method ReceivePacket(dest: array<Byte>, destsz: nat, input: seq<int>, pos: nat, c: Byte, xbuff: array<Byte>,
                       crc: bool, packetno: Byte, len: nat, retrans: int,
                       ghost before: seq<Byte>, ghost r: Receiver, ghost g: Frame)
    returns (good: bool, next: nat, packetno': Byte, len': nat, retrans': int, ghost f: Frame)
    requires IsInput(input) && 0 < pos <= |input| && input[pos - 1] == c && (c == SOH || c == STX)
    requires dest != xbuff && xbuff.Length == 1030 && Holds(dest[..], before, r, destsz)
    requires r.packetno == packetno && |r.data| == len && r.retrans == retrans
    modifies dest, xbuff
    ensures pos <= next <= |input|
    ensures good ==> next == pos - 1 + Length(crc, f) && Stretch(input, pos - 1, next, crc, f) && Wanted(r, f.number)
    ensures Stretch(input, pos - 1, pos - 1 + Length(crc, g), crc, g) && Wanted(r, g.number) ==> good && f == g
    ensures var r' := if good then Accept(r, f, destsz) else r;
            && Holds(dest[..], before, r', destsz)
            && packetno' == r'.packetno && len' == |r'.data| && retrans' == r'.retrans
  {
    hide Passes, Holds, Accept;
    var bufsz := if c == SOH then 128 else 1024;
    var n := bufsz + (if crc then 1 else 0) + 3;
    packetno', len', retrans', f := packetno, len, retrans, Frame(0, []);
    if Stretch(input, pos - 1, pos - 1 + Length(crc, g), crc, g) {
      StretchBytes(input, pos, c, crc, g);
    }
    good, next := ReadPacket(input, pos, c, xbuff, n);
    if good {
      assert xbuff[0] == xbuff[..n + 1][0] == c;
      ghost var bytes := xbuff[..n + 1];
      good := Validate(xbuff, bufsz, crc, packetno);
      f := Frame(xbuff[1], xbuff[3..3 + bufsz]);
      FrameInBytes(bytes, crc, f, g, bufsz);
      hide IsFrame;
      if good {
        packetno', len', retrans' := Take(dest, destsz, xbuff, bufsz, packetno, len, retrans, before, r);
      }
    }
  }

  // ---------- a clean transfer ----------

  /** Where the i-th of the frames starts when they come one after the other. */
  function Offset(fs: seq<Frame>, i: nat): nat
    requires i <= |fs|
  {
    if i == 0 then 0 else Offset(fs, i - 1) + Length(true, fs[i - 1])
  }

  /** The input is frames with CRCs, one after the other, each of which is wanted when it comes, and then EOT. */
  ghost predicate Clean(input: seq<int>, fs: seq<Frame>, destsz: nat) {
    && (forall i | 0 <= i < |fs| :: Stretch(input, Offset(fs, i), Offset(fs, i) + Length(true, fs[i]), true, fs[i]))
    && Offset(fs, |fs|) < |input| && input[Offset(fs, |fs|)] == EOT
    && Wellreceived(fs, destsz) && AcceptAll(fs, destsz).retrans > 0
  }

  /** As far as the receiver has got with it. */
  ghost predicate CleanSoFar(input: seq<int>, fs: seq<Frame>, destsz: nat, frames: seq<Frame>, pos: nat) {
    Clean(input, fs, destsz) ==> |frames| <= |fs| && frames == fs[..|frames|] && pos == Offset(fs, |frames|)
  }

  function NextOf(fs: seq<Frame>, n: nat): Frame { if n < |fs| then fs[n] else Frame(0, []) }

  lemma CleanAt(input: seq<int>, fs: seq<Frame>, destsz: nat, n: nat)
    requires Clean(input, fs, destsz) && n < |fs|
    ensures Stretch(input, Offset(fs, n), Offset(fs, n) + Length(true, fs[n]), true, fs[n])
  {
    hide Stretch, Offset, Length;
  }

  lemma CleanSays(input: seq<int>, fs: seq<Frame>, destsz: nat)
    requires Clean(input, fs, destsz)
    ensures Offset(fs, |fs|) < |input| && input[Offset(fs, |fs|)] == EOT
    ensures Wellreceived(fs, destsz) && AcceptAll(fs, destsz).retrans > 0
  {
  }

  lemma CleanNext(input: seq<int>, fs: seq<Frame>, destsz: nat, n: nat)
    requires Clean(input, fs, destsz) && n <= |fs|
    ensures Offset(fs, n) < |input|
    ensures if n == |fs| then Scan(input, Offset(fs, n), TRIES) == (Ended, Offset(fs, n) + 1)
            else
              var r, f := AcceptAll(fs[..n], destsz), fs[n];
              && Scan(input, Offset(fs, n), TRIES) == (Packet, Offset(fs, n) + 1)
              && Stretch(input, Offset(fs, n), Offset(fs, n) + Length(true, f), true, f)
              && Wanted(r, f.number) && Accept(r, f, destsz).retrans > 0
  {
    hide Stretch, Wellreceived, AcceptAll, Accept, Wanted, Scan, Offset, Length, Clean;
    CleanSays(input, fs, destsz);
    if n < |fs| {
      CleanAt(input, fs, destsz, n);
      FirstByte(input, Offset(fs, n), true, fs[n]);
      WellreceivedAt(fs, n, destsz);
    }
    ScanFinds(input, Offset(fs, n), Offset(fs, n), TRIES);
  }

  lemma CleanFinds(input: seq<int>, fs: seq<Frame>, destsz: nat, frames: seq<Frame>, pos: nat,
                   outcome: Outcome, next: nat)
    requires pos <= |input| && CleanSoFar(input, fs, destsz, frames, pos) && (outcome, next) == Scan(input, pos, TRIES)
    ensures Clean(input, fs, destsz) ==>
              var r, f := AcceptAll(frames, destsz), NextOf(fs, |frames|);
              || (outcome == Ended && frames == fs)
              || (outcome == Packet && next == pos + 1 && |frames| < |fs| && f == fs[|frames|]
                  && Stretch(input, pos, pos + Length(true, f), true, f)
                  && Wanted(r, f.number) && Accept(r, f, destsz).retrans > 0)
  {
    hide Clean, Stretch, Scan, Offset, AcceptAll, Accept, Wanted;
    if Clean(input, fs, destsz) {
      CleanNext(input, fs, destsz, |frames|);
    }
  }

  lemma CleanStart(input: seq<int>, fs: seq<Frame>, destsz: nat)
    ensures CleanSoFar(input, fs, destsz, [], 0)
  {
  }

  lemma CleanMore(input: seq<int>, fs: seq<Frame>, destsz: nat, frames: seq<Frame>, pos: nat, f: Frame, next: nat)
    requires CleanSoFar(input, fs, destsz, frames, pos)
    requires Clean(input, fs, destsz) ==>
               |frames| < |fs| && f == fs[|frames|] && next == pos + Length(true, f)
    ensures CleanSoFar(input, fs, destsz, frames + [f], next)
  {
    hide Clean, Length;
  }

  lemma NotClean(input: seq<int>, fs: seq<Frame>, destsz: nat, frames: seq<Frame>, pos: nat)
    requires !Clean(input, fs, destsz)
    ensures CleanSoFar(input, fs, destsz, frames, pos)
  {
  }

  lemma FirstByte(input: seq<int>, from: nat, crc: bool, f: Frame)
    requires Stretch(input, from, from + Length(crc, f), crc, f)
    ensures from < |input| && (input[from] == SOH || input[from] == STX)
  {
    var s := input[from..from + Length(crc, f)];
    assert ToBytes(s)[0] == s[0] == input[from];
  }

  lemma {:induction false} WellreceivedAt(fs: seq<Frame>, n: nat, destsz: nat)
    requires Wellreceived(fs, destsz) && n < |fs| && AcceptAll(fs, destsz).retrans > 0
    ensures var r := AcceptAll(fs[..n], destsz); Wanted(r, fs[n].number) && Accept(r, fs[n], destsz).retrans > 0
    decreases |fs|
  {
    var m := |fs| - 1;
    assert fs == fs[..m] + [fs[m]];
    if n < m {
      WellreceivedAt(fs[..m], n, destsz);
      assert fs[..m][..n] == fs[..n];
    }
  }

  /** xmodemReceive: dest holds what the good frames make, in order; the result is its length when the sender
      has ended, and an ACK has been sent for every good frame, for the end and for a cancellation. last is where
      the receiver, having taken its last good frame, begins to wait for what ends the transfer. */
  method Receive(dest: array<Byte>, destsz: nat, input: seq<int>, ghost fs: seq<Frame>)
    returns (result: int, replies: seq<Byte>, ghost frames: seq<Frame>, ghost starts: seq<nat>, ghost crcMode: bool,
             ghost last: nat)
    requires destsz <= dest.Length && IsInput(input)
    modifies dest
    ensures Receiving(input, |input|, crcMode, frames, starts, destsz, AcceptAll(frames, destsz))
    ensures last <= |input| && FromInput(input, crcMode, frames, starts, last)
    ensures result >= 0 <==> AcceptAll(frames, destsz).retrans > 0 && Scan(input, last, TRIES).0 == Ended
    ensures result == -1 <==> AcceptAll(frames, destsz).retrans > 0 && Scan(input, last, TRIES).0 == Cancelled
    ensures result == -2 <==> AcceptAll(frames, destsz).retrans > 0 && Scan(input, last, TRIES).0 == Nothing
    ensures Clean(input, fs, destsz) ==> frames == fs && result >= 0
    ensures Holds(dest[..], old(dest[..]), AcceptAll(frames, destsz), destsz)
    ensures result >= 0 ==> result == |AcceptAll(frames, destsz).data|
    ensures result < 0 ==> result == -1 || result == -2 || result == -3
    ensures result == -3 <==> AcceptAll(frames, destsz).retrans <= 0
    ensures Acks(replies) == |frames| + if result >= -1 then 1 else if result == -3 then -1 else 0
  {
    hide FromInput, Wellreceived, AcceptAll, IsFrame, Accept, Receiving, Holds, Stretch, Scan, Clean, CleanSoFar,
      Offset, Length, NextOf;
    var xbuff := new Byte[1030];
    var crc := false;
    var trychar: Byte := 'C' as int;
    var packetno: Byte, len, retrans := 1, 0, MAX_RETRANS;
    var pos := 0;
    replies, frames, starts := [], [], [];
    ghost var before, r := dest[..], START;
    ReceivingStart(input, crc, destsz, before);
    CleanStart(input, fs, destsz);
    while true
      invariant pos <= |input| && Receiving(input, pos, crc, frames, starts, destsz, r)
                  && Holds(dest[..], before, r, destsz)
      invariant CleanSoFar(input, fs, destsz, frames, pos)
      invariant Clean(input, fs, destsz) ==> trychar == 'C' as int || crc
      invariant trychar == 'C' as int || trychar == NAK || trychar == 0
      invariant trychar == 'C' as int ==> frames == [] && starts == [] && !crc
      invariant packetno == r.packetno && len == |r.data| && retrans == r.retrans > 0
      invariant Acks(replies) == |frames|
      decreases |input| - pos, if trychar == 'C' as int then 1 else 0
    {
      last := pos;
      var outcome, c, next;
      outcome, c, next, replies := AwaitStart(input, pos, trychar, replies);
      CleanFinds(input, fs, destsz, frames, pos, outcome, next);
      ReceivingLater(input, pos, next, crc, frames, starts, destsz, r);
      ReceivingLater(input, pos, |input|, crc, frames, starts, destsz, r);
      crcMode := crc;
      ReceivingIs(input, pos, crc, frames, starts, destsz, r);
      match outcome
      case Ended =>
        replies := OutByte(replies, ACK);
        next := FlushInput(input, next);
        return len, replies, frames, starts, crc, last;
      case Cancelled =>
        next := FlushInput(input, next);
        replies := OutByte(replies, ACK);
        return -1, replies, frames, starts, crc, last;
      case Nothing =>
        pos := next;
        if trychar == 'C' as int {
          trychar := NAK;
          NotClean(input, fs, destsz, frames, pos);
          continue;
        }
        next := FlushInput(input, next);
        replies := OutByte(replies, CAN);
        replies := OutByte(replies, CAN);
        replies := OutByte(replies, CAN);
        return -2, replies, frames, starts, crc, last;
      case Packet =>
        if trychar == 'C' as int {
          ReceivingMode(input, pos, crc, true, destsz, r);
          crc := true;
        }
        trychar := 0;
        var good;
        ghost var f, at := Frame(0, []), pos;
        good, pos, packetno, len, retrans, f :=
          ReceivePacket(dest, destsz, input, next, c, xbuff, crc, packetno, len, retrans, before, r,
                        NextOf(fs, |frames|));
        if good {
          ReceivingMore(input, at, next - 1, crc, frames, starts, destsz, r, f);
          CleanMore(input, fs, destsz, frames, at, f, pos);
          frames, starts, r := frames + [f], starts + [(next - 1) as nat], Accept(r, f, destsz);
          if retrans <= 0 {
            ReceivingLater(input, pos, |input|, crc, frames, starts, destsz, r);
            ReceivingIs(input, pos, crc, frames, starts, destsz, r);
            last := pos;
            pos := FlushInput(input, pos);
            replies := OutByte(replies, CAN);
            replies := OutByte(replies, CAN);
            replies := OutByte(replies, CAN);
            return -3, replies, frames, starts, crc, last;
          }
          replies := OutByte(replies, ACK);
        } else {
          pos := FlushInput(input, pos);
          NotClean(input, fs, destsz, frames, pos);
          ReceivingLater(input, at, pos, crc, frames, starts, destsz, r);
          replies := OutByte(replies, NAK);
        }
    }
  }

  function Payloads(fs: seq<Frame>): (r: seq<seq<Byte>>)
    ensures |r| == |fs| && forall i | 0 <= i < |fs| :: r[i] == fs[i].payload
  {
    seq(|fs|, i requires 0 <= i < |fs| => fs[i].payload)
  }

  /** Frames numbered 1, 2, .. modulo 256 are all wanted, and all of their payload is kept. */
  lemma {:induction false} NumberedFrames(fs: seq<Frame>, destsz: nat)
    requires forall i | 0 <= i < |fs| :: fs[i].number == Number(i)
    ensures Wellreceived(fs, destsz)
    ensures AcceptAll(fs, destsz) == Receiver(Number(|fs|), Clip(Concat(Payloads(fs)), destsz), MAX_RETRANS)
    decreases |fs|
  {
    hide Clip, Number, NextNumber;
    if fs == [] {
      NothingKept(destsz);
    } else {
      var n := |fs| - 1;
      NumberedFrames(fs[..n], destsz);
      NumberAfter(n);
      assert Payloads(fs)[..n] == Payloads(fs[..n]);
      Appended(Concat(Payloads(fs[..n])), fs[n].payload, destsz);
    }
  }

  lemma NothingKept(destsz: nat)
    ensures Number(0) == 1 && Clip(Concat([]), destsz) == []
  {
  }

  /** What Receive does with a clean transfer, of frames numbered 1, 2, .. modulo 256 and then EOT: it takes them
      all, and returns the length of the file, or of as much of it as there is room for. */
  lemma CleanTransfer(input: seq<int>, fs: seq<Frame>, destsz: nat, frames: seq<Frame>, result: int,
                      dest: seq<Byte>, before: seq<Byte>)
    requires forall i | 0 <= i < |fs| ::
               && fs[i].number == (i + 1) % 256
               && Stretch(input, Offset(fs, i), Offset(fs, i) + Length(true, fs[i]), true, fs[i])
    requires Offset(fs, |fs|) < |input| && input[Offset(fs, |fs|)] == EOT
    requires Clean(input, fs, destsz) ==> frames == fs && result >= 0
    requires result >= 0 ==> result == |AcceptAll(frames, destsz).data|
    requires Holds(dest, before, AcceptAll(frames, destsz), destsz)
    ensures var file := Concat(Payloads(fs));
            && frames == fs && result == Min(|file|, destsz)
            && dest[..result] == file[..result] && dest[result..] == before[result..]
  {
    hide Stretch, Offset, Length, AcceptAll, Wellreceived, Concat;
    NumberedFrames(fs, destsz);
  }

  // ---------- the sender and the line ----------

  /** blocks is the file as the sender cuts it up, current the block it is sending, counted from 0, and so
      also the number of acknowledgements it has used; last is the furthest block of which a frame has
      arrived, frames are the good frames, and taken the blocks that were taken from them, in order. */
  datatype Link = Link(blocks: seq<seq<Byte>>, current: nat, last: nat, frames: seq<Frame>, taken: seq<nat>)

  function Begun(blocks: seq<seq<Byte>>): Link { Link(blocks, 0, 0, [], []) }

  /** Blocks are numbered from 1, modulo 256. */
  function Number(b: nat): Byte { (b + 1) % 256 }

  function BlockFrame(blocks: seq<seq<Byte>>, b: nat): Frame
    requires b < |blocks|
  {
    Frame(Number(b), blocks[b])
  }

  datatype Event =
    | Arrives(block: nat)  // a frame comes through undamaged
    | Advances             // the sender takes an ACK for that of its current block

  /** The receiver acknowledges every good frame, except the one on which it gives up. */
  function AcksSent(l: Link, destsz: nat): int {
    if AcceptAll(l.frames, destsz).retrans > 0 then |l.frames| else |l.frames| - 1
  }

  /** Frames that come through are copies of blocks sent, in the order sent, except that a copy of the block
      before the last to arrive may still come; whatever else comes is dropped, and damaged frames do not
      pass the check. An ACK carries no number: the sender takes any that was sent and not used before. */
  ghost predicate Enabled(l: Link, destsz: nat, e: Event) {
    match e
    case Arrives(b) =>
      b < |l.blocks| && b <= l.current && l.last <= b + 1 && AcceptAll(l.frames, destsz).retrans > 0
    case Advances => l.current < |l.blocks| && l.current < AcksSent(l, destsz)
  }

  /** A frame that arrives is good if its number is wanted, and rejected otherwise. */
  ghost function Apply(l: Link, destsz: nat, e: Event): Link
    requires Enabled(l, destsz, e)
  {
    match e
    case Arrives(b) =>
      var r, f, l' := AcceptAll(l.frames, destsz), BlockFrame(l.blocks, b), l.(last := Max(l.last, b));
      if !Wanted(r, f.number) then l'
      else l'.(frames := l.frames + [f], taken := if f.number == r.packetno then l.taken + [b] else l.taken)
    case Advances => l.(current := l.current + 1)
  }

  ghost predicate Reaches(l: Link, destsz: nat, run: seq<Event>, l': Link)
    decreases |run|
  {
    if run == [] then l' == l
    else Enabled(l, destsz, run[0]) && Reaches(Apply(l, destsz, run[0]), destsz, run[1..], l')
  }

  /** Blocks are taken once each and in order. */
  ghost predicate InOrder(l: Link) {
    forall i | 0 <= i < |l.taken| :: l.taken[i] == i
  }

  /** As much of s as size bytes can hold */
  function Clip(s: seq<Byte>, size: nat): seq<Byte> { s[..Min(|s|, size)] }

  /** What holds in every run: the receiver counts what it takes modulo 256, its frames are such as Receive
      finds good, and between two new blocks it puts up with 24 repeats. */
  ghost predicate Counted(l: Link, destsz: nat) {
    var r := AcceptAll(l.frames, destsz);
    && Wellreceived(l.frames, destsz)
    && r.packetno == Number(|l.taken|)
    && l.last <= l.current <= AcksSent(l, destsz)
    && (if l.taken == [] then l.frames == []
        else |l.frames| + r.retrans <= MAX_RETRANS * |l.taken| + 1 && 0 <= r.retrans <= MAX_RETRANS)
  }

  /** What holds as long as no wrong block is taken. */
  ghost predicate InStep(l: Link, destsz: nat) {
    && InOrder(l) && |l.taken| <= l.last + 1 && |l.taken| <= |l.blocks|
    && AcceptAll(l.frames, destsz).data == Clip(Concat(l.blocks[..|l.taken|]), destsz)
  }

  /** The sender is less than 256 blocks ahead of the block the receiver waits for, or has no such block. */
  ghost predicate Close(l: Link) {
    l.current < |l.taken| + 256 || |l.blocks| <= |l.taken| + 256
  }

  lemma {:induction false} AcceptMore(frames: seq<Frame>, f: Frame, destsz: nat)
    ensures AcceptAll(frames + [f], destsz) == Accept(AcceptAll(frames, destsz), f, destsz)
    ensures Wellreceived(frames, destsz) && Wanted(AcceptAll(frames, destsz), f.number)
            && AcceptAll(frames, destsz).retrans > 0
            ==> Wellreceived(frames + [f], destsz)
  {
    assert (frames + [f])[..|frames|] == frames;
  }

  lemma NumberAfter(n: nat)
    ensures NextNumber(Number(n)) == Number(n + 1)
  {
    AddMultiple((n + 1) % 256 + 1, (n + 1) / 256, 256);
  }

  lemma StepCounted(l: Link, destsz: nat, e: Event)
    requires Counted(l, destsz) && Enabled(l, destsz, e)
    ensures Counted(Apply(l, destsz, e), destsz)
  {
    hide AcceptAll, Wellreceived, NextNumber, Number;
    match e
    case Advances =>
    case Arrives(b) =>
      var f := BlockFrame(l.blocks, b);
      AcceptMore(l.frames, f, destsz);
      NumberAfter(|l.taken|);
      assert l.taken == [] ==> b == 0;
  }

  /** The numbers of blocks that lie less than 256 apart differ. */
  lemma NumbersDiffer(a: nat, b: nat)
    requires a < b < a + 256
    ensures Number(a) != Number(b)
  {
  }

  /** Whatever arrives while the sender is close, what is taken is the block waited for. */
  lemma ArrivesInStep(l: Link, destsz: nat, b: nat)
    requires Counted(l, destsz) && InStep(l, destsz) && Enabled(l, destsz, Arrives(b)) && Close(l)
    ensures InStep(Apply(l, destsz, Arrives(b)), destsz)
  {
    var r, f := AcceptAll(l.frames, destsz), BlockFrame(l.blocks, b);
    hide AcceptAll, Concat, Wellreceived, Clip, InOrder, Accept, Counted, Number;
    AcceptMore(l.frames, f, destsz);
    if f.number == r.packetno {
      OnlyNextTaken(l, destsz, b);
      TakenInStep(l, destsz, r, b, f);
      InOrderFurther(l.taken);
    } else {
      RepeatKept(r, f, destsz);
    }
  }

  lemma InOrderFurther(taken: seq<nat>)
    ensures (forall i | 0 <= i < |taken| :: taken[i] == i)
            ==> forall i | 0 <= i < |taken| + 1 :: (taken + [|taken|])[i] == i
  {
  }

  lemma RepeatKept(r: Receiver, f: Frame, destsz: nat)
    requires f.number != r.packetno
    ensures Accept(r, f, destsz).data == r.data
  {
  }

  lemma OnlyNextTaken(l: Link, destsz: nat, b: nat)
    requires Counted(l, destsz) && InStep(l, destsz) && Enabled(l, destsz, Arrives(b)) && Close(l)
    requires BlockFrame(l.blocks, b).number == AcceptAll(l.frames, destsz).packetno
    ensures b == |l.taken|
  {
    var n := |l.taken|;
    hide AcceptAll, Concat, Wellreceived, Clip, InOrder, Number;
    if b < n {
      NumbersDiffer(b, n);
    } else if n < b {
      NumbersDiffer(n, b);
    }
  }

  lemma TakenInStep(l: Link, destsz: nat, r: Receiver, n: nat, f: Frame)
    requires n < |l.blocks| && f.number == r.packetno && f.payload == l.blocks[n]
    requires r.data == Clip(Concat(l.blocks[..n]), destsz)
    ensures Accept(r, f, destsz).data == Clip(Concat(l.blocks[..n + 1]), destsz)
  {
    hide Concat, Clip;
    ConcatNext(l.blocks, n);
    Appended(Concat(l.blocks[..n]), l.blocks[n], destsz);
  }

  lemma ConcatNext(blocks: seq<seq<Byte>>, n: nat)
    requires n < |blocks|
    ensures Concat(blocks[..n + 1]) == Concat(blocks[..n]) + blocks[n]
  {
    assert blocks[..n + 1][..n] == blocks[..n];
  }

  lemma Appended(s: seq<Byte>, t: seq<Byte>, size: nat)
    ensures var d := Clip(s, size);
            var room := size - |d|;
            var count := if room > |t| then |t| else room;
            (if count > 0 then d + t[..count] else d) == Clip(s + t, size)
  {
  }

  /** The sender is close whenever a frame arrives. */
  ghost predicate StaysClose(l: Link, destsz: nat, run: seq<Event>)
    decreases |run|
  {
    run != [] && Enabled(l, destsz, run[0]) ==>
      (run[0].Arrives? ==> Close(l)) && StaysClose(Apply(l, destsz, run[0]), destsz, run[1..])
  }

  lemma {:induction false} RunInStep(l: Link, destsz: nat, run: seq<Event>, l': Link)
    requires Counted(l, destsz) && InStep(l, destsz) && Reaches(l, destsz, run, l') && StaysClose(l, destsz, run)
    ensures Counted(l', destsz) && InStep(l', destsz) && l'.blocks == l.blocks
    decreases |run|
  {
    hide InStep, Counted, Close;
    if run != [] {
      StepCounted(l, destsz, run[0]);
      match run[0] {
        case Arrives(b) => ArrivesInStep(l, destsz, b);
        case Advances => AdvancesInStep(l, destsz);
      }
      RunInStep(Apply(l, destsz, run[0]), destsz, run[1..], l');
    }
  }

  lemma AdvancesInStep(l: Link, destsz: nat)
    requires InStep(l, destsz) && Enabled(l, destsz, Advances)
    ensures InStep(Apply(l, destsz, Advances), destsz)
  {
  }

  lemma BegunInStep(blocks: seq<seq<Byte>>, destsz: nat)
    ensures Counted(Begun(blocks), destsz) && InStep(Begun(blocks), destsz)
  {
    assert Concat(blocks[..0]) == [];
  }

  /** In every run in which the sender stays less than 256 blocks ahead, blocks are taken once each and in
      order, and what has been taken is the beginning of the file, of at most destsz bytes. */
  lemma Safety(blocks: seq<seq<Byte>>, destsz: nat, run: seq<Event>, l: Link)
    requires Reaches(Begun(blocks), destsz, run, l) && StaysClose(Begun(blocks), destsz, run)
    ensures InOrder(l)
    ensures var r, file := AcceptAll(l.frames, destsz), Concat(blocks);
            |r.data| <= |file| && r.data == file[..|r.data|] && |r.data| <= destsz
  {
    hide Reaches, StaysClose;
    BegunInStep(blocks, destsz);
    RunInStep(Begun(blocks), destsz, run, l);
    ConcatPrefix(blocks, |l.taken|);
  }

  /** In step, with the sender no more than 256 blocks ahead, nothing that can arrive is taken for another
      block if and only if the sender is close: at a lead of 256 its block carries the number waited for. */
  lemma LeadIff(l: Link, destsz: nat)
    requires Counted(l, destsz) && InStep(l, destsz) && AcceptAll(l.frames, destsz).retrans > 0
    requires l.current <= |l.taken| + 256
    ensures (forall b | Enabled(l, destsz, Arrives(b)) :: InOrder(Apply(l, destsz, Arrives(b)))) <==> Close(l)
  {
    var n := |l.taken|;
    if Close(l) {
      forall b | Enabled(l, destsz, Arrives(b))
        ensures InOrder(Apply(l, destsz, Arrives(b)))
      {
        ArrivesInStep(l, destsz, b);
      }
    } else {
      WrongBlockTaken(l, destsz);
    }
  }

  /** At a lead of 256 the block the sender is sending is taken for the one waited for. */
  lemma WrongBlockTaken(l: Link, destsz: nat)
    requires Counted(l, destsz) && AcceptAll(l.frames, destsz).retrans > 0
    requires l.current == |l.taken| + 256 < |l.blocks|
    ensures Enabled(l, destsz, Arrives(l.current)) && !InOrder(Apply(l, destsz, Arrives(l.current)))
  {
    hide AcceptAll, Wellreceived;
    var l' := Apply(l, destsz, Arrives(l.current));
    assert Number(|l.taken| + 256) == Number(|l.taken|);
    assert l'.taken == l.taken + [l.current];
    assert l'.taken[|l.taken|] != |l.taken|;
  }

  // ---------- how far ahead the sender can get ----------

  /** The longest file whose blocks always come in order. */
  const SAFE_BLOCKS := 267

  /** It needs 11 blocks, each acknowledged 25 times, to get 256 blocks ahead. */
  lemma ShortIsClose(l: Link, destsz: nat)
    requires Counted(l, destsz) && |l.blocks| <= SAFE_BLOCKS && AcceptAll(l.frames, destsz).retrans > 0
    ensures Close(l)
  {
    hide AcceptAll, Wellreceived;
    if |l.taken| <= 10 {
      assert l.current <= |l.frames| <= 250;
    }
  }

  lemma {:induction false} ShortStaysClose(l: Link, destsz: nat, run: seq<Event>, l': Link)
    requires Counted(l, destsz) && |l.blocks| <= SAFE_BLOCKS && Reaches(l, destsz, run, l')
    ensures StaysClose(l, destsz, run)
    decreases |run|
  {
    hide Counted, Close, InOrder;
    if run != [] {
      if run[0].Arrives? {
        ShortIsClose(l, destsz);
      }
      StepCounted(l, destsz, run[0]);
      ShortStaysClose(Apply(l, destsz, run[0]), destsz, run[1..], l');
    }
  }

  lemma {:induction false} ReachesOn(l: Link, destsz: nat, run: seq<Event>, l1: Link, more: seq<Event>, l2: Link)
    requires Reaches(l, destsz, run, l1) && Reaches(l1, destsz, more, l2)
    ensures Reaches(l, destsz, run + more, l2)
    decreases |run|
  {
    hide Enabled, Apply;
    if run == [] {
      assert run + more == more;
    } else {
      ReachesOn(Apply(l, destsz, run[0]), destsz, run[1..], l1, more, l2);
      assert (run + more)[1..] == run[1..] + more;
    }
  }

  lemma ReachesOne(l: Link, destsz: nat, run: seq<Event>, l1: Link, e: Event)
    requires Reaches(l, destsz, run, l1) && Enabled(l1, destsz, e)
    ensures Reaches(l, destsz, run + [e], Apply(l1, destsz, e))
  {
    hide Enabled, Apply;
    assert ([e])[1..] == [] && Reaches(Apply(l1, destsz, e), destsz, [], Apply(l1, destsz, e));
    ReachesOn(l, destsz, run, l1, [e], Apply(l1, destsz, e));
  }

  lemma Stays(l: Link, destsz: nat)
    ensures Reaches(l, destsz, [], l)
  {
  }

  /** A run after which n blocks have been taken, from m good frames, and the sender is sending the block
      current. */
  ghost predicate Got(blocks: seq<seq<Byte>>, destsz: nat, run: seq<Event>, l: Link,
                      n: nat, m: nat, current: nat, retrans: nat) {
    var r := AcceptAll(l.frames, destsz);
    && Reaches(Begun(blocks), destsz, run, l) && l.blocks == blocks && l.last <= l.current == current
    && n == |l.taken| <= |blocks| && m == |l.frames| && 1 <= r.retrans == retrans
    && r.packetno == Number(n) && r.data == Clip(Concat(blocks[..n]), destsz)
  }

  lemma NothingYet(blocks: seq<seq<Byte>>, destsz: nat)
    ensures Got(blocks, destsz, [], Begun(blocks), 0, 0, 0, MAX_RETRANS)
  {
    assert Concat(blocks[..0]) == [];
  }

  /** The current block comes for the first time. */
  lemma NewBlock(blocks: seq<seq<Byte>>, destsz: nat, run: seq<Event>, l: Link, n: nat, m: nat, t: nat)
    returns (run': seq<Event>, l': Link)
    requires Got(blocks, destsz, run, l, n, m, n, t) && n < |blocks|
    ensures Got(blocks, destsz, run', l', n + 1, m + 1, n, MAX_RETRANS)
    ensures run' == run + [Arrives(n)]
  {
    hide AcceptAll, Reaches, Wellreceived, Concat, Clip, Number, NextNumber;
    var f := BlockFrame(blocks, n);
    run', l' := run + [Arrives(n)], Apply(l, destsz, Arrives(n));
    AcceptMore(l.frames, f, destsz);
    TakenInStep(l, destsz, AcceptAll(l.frames, destsz), n, f);
    NumberAfter(n);
    ReachesOne(Begun(blocks), destsz, run, l, Arrives(n));
  }

  lemma NumberBefore(n: nat)
    requires n < 254
    ensures Number(n) == Number(n + 1) - 1
  {
  }

  /** It comes again. */
  lemma BlockAgain(blocks: seq<seq<Byte>>, destsz: nat, run: seq<Event>, l: Link, n: nat, m: nat, t: nat)
    returns (run': seq<Event>, l': Link)
    requires Got(blocks, destsz, run, l, n + 1, m, n, t) && n < 254 && t > 1
    ensures Got(blocks, destsz, run', l', n + 1, m + 1, n, t - 1)
    ensures run' == run + [Arrives(n)]
  {
    hide AcceptAll, Reaches, Wellreceived, Concat, Clip, Number, NextNumber;
    var f := BlockFrame(blocks, n);
    run', l' := run + [Arrives(n)], Apply(l, destsz, Arrives(n));
    AcceptMore(l.frames, f, destsz);
    NumberBefore(n);
    ReachesOne(Begun(blocks), destsz, run, l, Arrives(n));
  }

  /** The sender takes an ACK. */
  lemma AckTaken(blocks: seq<seq<Byte>>, destsz: nat, run: seq<Event>, l: Link, n: nat, m: nat, c: nat, t: nat)
    returns (run': seq<Event>, l': Link)
    requires Got(blocks, destsz, run, l, n, m, c, t) && c < m && c < |blocks|
    ensures Got(blocks, destsz, run', l', n, m, c + 1, t)
    ensures run' == run + [Advances]
  {
    hide AcceptAll, Reaches, Concat, Clip, Number;
    run', l' := run + [Advances], Apply(l, destsz, Advances);
    ReachesOne(Begun(blocks), destsz, run, l, Advances);
  }

  /** n blocks have come, 25 times each. */
  lemma {:induction false} BlocksRepeated(blocks: seq<seq<Byte>>, destsz: nat, n: nat)
    returns (run: seq<Event>, l: Link)
    requires n <= 11 && n <= |blocks|
    ensures Got(blocks, destsz, run, l, n, MAX_RETRANS * n, n, if n == 0 then MAX_RETRANS else 1)
  {
    hide Got;
    if n == 0 {
      NothingYet(blocks, destsz);
      run, l := [], Begun(blocks);
    } else {
      run, l := BlocksRepeated(blocks, destsz, n - 1);
      run, l := NewBlock(blocks, destsz, run, l, n - 1, MAX_RETRANS * (n - 1),
                         if n == 1 then MAX_RETRANS else 1);
      for k := 0 to 24
        invariant Got(blocks, destsz, run, l, n, MAX_RETRANS * (n - 1) + 1 + k, n - 1, MAX_RETRANS - k)
      {
        run, l := BlockAgain(blocks, destsz, run, l, n - 1, MAX_RETRANS * (n - 1) + 1 + k, MAX_RETRANS - k);
      }
      run, l := AckTaken(blocks, destsz, run, l, n, MAX_RETRANS * n, n - 1, 1);
    }
  }

  /** The sender takes one ACK after the other, while the line drops what it sends. */
  lemma RunsAhead(blocks: seq<seq<Byte>>, destsz: nat, n: nat, current: nat) returns (run: seq<Event>, l: Link)
    requires n <= 11 && n <= current <= |blocks| && current <= MAX_RETRANS * n
    ensures Got(blocks, destsz, run, l, n, MAX_RETRANS * n, current, if n == 0 then MAX_RETRANS else 1)
  {
    hide Got;
    var t := if n == 0 then MAX_RETRANS else 1;
    run, l := BlocksRepeated(blocks, destsz, n);
    for c := n to current
      invariant Got(blocks, destsz, run, l, n, MAX_RETRANS * n, c, t)
    {
      run, l := AckTaken(blocks, destsz, run, l, n, MAX_RETRANS * n, c, t);
    }
  }

  lemma {:induction false} RunCounted(l: Link, destsz: nat, run: seq<Event>, l': Link)
    requires Counted(l, destsz) && Reaches(l, destsz, run, l')
    ensures Counted(l', destsz) && l'.blocks == l.blocks
    decreases |run|
  {
    hide Counted;
    if run != [] {
      StepCounted(l, destsz, run[0]);
      RunCounted(Apply(l, destsz, run[0]), destsz, run[1..], l');
    }
  }

  ghost predicate AlwaysInOrder(blocks: seq<seq<Byte>>, destsz: nat) {
    forall run, l | Reaches(Begun(blocks), destsz, run, l) :: InOrder(l)
  }

  lemma LongGoesWrong(blocks: seq<seq<Byte>>, destsz: nat) returns (run: seq<Event>, l: Link)
    requires |blocks| > SAFE_BLOCKS
    ensures Reaches(Begun(blocks), destsz, run, l) && !InOrder(l)
  {
    var l1;
    run, l1 := RunsAhead(blocks, destsz, 11, 267);
    BegunInStep(blocks, destsz);
    RunCounted(Begun(blocks), destsz, run, l1);
    WrongBlockTaken(l1, destsz);
    ReachesOne(Begun(blocks), destsz, run, l1, Arrives(l1.current));
    run, l := run + [Arrives(l1.current)], Apply(l1, destsz, Arrives(l1.current));
  }

  /** In every run of every such sender blocks are taken once each and in order if and only if the file has
      at most 267 blocks. */
  lemma OrderIff(blocks: seq<seq<Byte>>, destsz: nat)
    ensures AlwaysInOrder(blocks, destsz) <==> |blocks| <= SAFE_BLOCKS
  {
    if |blocks| <= SAFE_BLOCKS {
      hide InOrder, Counted, InStep;
      forall run, l | Reaches(Begun(blocks), destsz, run, l)
        ensures InOrder(l)
      {
        BegunInStep(blocks, destsz);
        ShortStaysClose(Begun(blocks), destsz, run, l);
        Safety(blocks, destsz, run, l);
      }
    } else {
      var run, l := LongGoesWrong(blocks, destsz);
      assert Reaches(Begun(blocks), destsz, run, l) && !InOrder(l);
      assert !AlwaysInOrder(blocks, destsz);
    }
  }

  // ---------- when the sender is done ----------

  lemma {:induction false} ConcatLonger(blocks: seq<seq<Byte>>, n: nat)
    requires n < |blocks| && forall i | 0 <= i < |blocks| :: blocks[i] != []
    ensures |Concat(blocks[..n])| < |Concat(blocks)|
  {
    ConcatPrefix(blocks, n + 1);
    ConcatNext(blocks, n);
  }

  /** Whenever the sender is done, the receiver has got the file, or as much of it as there is room for. */
  ghost predicate AlwaysWhole(blocks: seq<seq<Byte>>, destsz: nat) {
    forall run, l | Reaches(Begun(blocks), destsz, run, l) && l.current == |blocks| ::
      AcceptAll(l.frames, destsz).data == Clip(Concat(blocks), destsz)
  }

  /** Of n blocks that are acknowledged as many may be all that were taken. */
  function Fewest(n: nat): (m: nat)
    ensures m <= n && n <= MAX_RETRANS * m < n + MAX_RETRANS
  {
    (n + MAX_RETRANS - 1) / MAX_RETRANS
  }

  lemma ClipConcat(blocks: seq<seq<Byte>>, m: nat, n: nat, destsz: nat)
    requires m <= n <= |blocks|
    ensures var a, b := Clip(Concat(blocks[..m]), destsz), Clip(Concat(blocks[..n]), destsz);
            |a| <= |b| && a == b[..|a|]
  {
    assert blocks[..n][..m] == blocks[..m];
    ConcatPrefix(blocks[..n], m);
    hide Concat;
  }

  /** As many ACKs as there are blocks have been sent for at least that many blocks taken. */
  lemma AtLeastFewest(l: Link, destsz: nat)
    requires Counted(l, destsz) && |l.blocks| <= AcksSent(l, destsz)
    ensures Fewest(|l.blocks|) <= |l.taken|
  {
    hide AcceptAll, Wellreceived;
  }

  /** A file of at most 267 blocks is always got whole if and only if its first Fewest(|blocks|) blocks fill the
      memory, or there are no others. */
  lemma ShortWholeIff(blocks: seq<seq<Byte>>, destsz: nat)
    requires |blocks| <= SAFE_BLOCKS
    ensures AlwaysWhole(blocks, destsz)
            <==> Clip(Concat(blocks[..Fewest(|blocks|)]), destsz) == Clip(Concat(blocks), destsz)
  {
    var m := Fewest(|blocks|);
    var run, l := RunsAhead(blocks, destsz, m, |blocks|);
    GotData(blocks, destsz, run, l, m, MAX_RETRANS * m, |blocks|, if m == 0 then MAX_RETRANS else 1);
    assert Reaches(Begun(blocks), destsz, run, l) && l.current == |blocks|;
    assert blocks[..|blocks|] == blocks;
    hide Reaches, Concat, Clip, Got, AcceptAll, Fewest;
    if Clip(Concat(blocks[..m]), destsz) == Clip(Concat(blocks), destsz) {
      forall run, l | Reaches(Begun(blocks), destsz, run, l) && l.current == |blocks|
        ensures AcceptAll(l.frames, destsz).data == Clip(Concat(blocks), destsz)
      {
        ShortRunWhole(blocks, destsz, run, l);
      }
    }
  }

  lemma ShortRunWhole(blocks: seq<seq<Byte>>, destsz: nat, run: seq<Event>, l: Link)
    requires Reaches(Begun(blocks), destsz, run, l) && |blocks| <= SAFE_BLOCKS && l.current == |blocks|
    requires Clip(Concat(blocks[..Fewest(|blocks|)]), destsz) == Clip(Concat(blocks), destsz)
    ensures AcceptAll(l.frames, destsz).data == Clip(Concat(blocks), destsz)
  {
    ShortInStep(blocks, destsz, run, l);
    hide Reaches, AcceptAll, Wellreceived, Concat, Clip, Fewest, InOrder, Number;
    AtLeastFewest(l, destsz);
    ClipConcat(blocks, Fewest(|blocks|), |l.taken|, destsz);
    ClipConcat(blocks, |l.taken|, |blocks|, destsz);
    assert blocks[..|blocks|] == blocks;
  }

  lemma ShortInStep(blocks: seq<seq<Byte>>, destsz: nat, run: seq<Event>, l: Link)
    requires Reaches(Begun(blocks), destsz, run, l) && |blocks| <= SAFE_BLOCKS
    ensures Counted(l, destsz) && InStep(l, destsz) && l.blocks == blocks
  {
    BegunInStep(blocks, destsz);
    hide Reaches, Counted, InStep;
    ShortStaysClose(Begun(blocks), destsz, run, l);
    RunInStep(Begun(blocks), destsz, run, l);
  }

  /** Block 0 comes twice and every other one once; the sender takes one ACK for each. */
  lemma OneAckSpare(blocks: seq<seq<Byte>>, destsz: nat, n: nat) returns (run: seq<Event>, l: Link, t: nat)
    requires 1 <= n <= |blocks|
    ensures Got(blocks, destsz, run, l, n, n + 1, n, t)
  {
    hide Got;
    NothingYet(blocks, destsz);
    run, l := NewBlock(blocks, destsz, [], Begun(blocks), 0, 0, MAX_RETRANS);
    run, l := BlockAgain(blocks, destsz, run, l, 0, 1, MAX_RETRANS);
    t := MAX_RETRANS - 1;
    run, l := AckTaken(blocks, destsz, run, l, 1, 2, 0, t);
    for k := 1 to n
      invariant Got(blocks, destsz, run, l, k, k + 1, k, t)
    {
      run, l := NewBlock(blocks, destsz, run, l, k, k + 1, t);
      t := MAX_RETRANS;
      run, l := AckTaken(blocks, destsz, run, l, k + 1, k + 2, k, t);
    }
  }

  /** A file of non-empty blocks for which there is room is always got whole if and only if it has at most one
      block: otherwise the ACK for one repeated frame is enough for the sender to be done before the last block
      has come. */
  lemma WholeIff(blocks: seq<seq<Byte>>, destsz: nat)
    requires forall i | 0 <= i < |blocks| :: blocks[i] != []
    requires |Concat(blocks)| <= destsz
    ensures AlwaysWhole(blocks, destsz) <==> |blocks| <= 1
  {
    var n := |blocks|;
    if n <= 1 {
      assert Fewest(n) == n && blocks[..n] == blocks;
      ShortWholeIff(blocks, destsz);
    } else {
      var run, l, t := OneAckSpare(blocks, destsz, n - 1);
      run, l := AckTaken(blocks, destsz, run, l, n - 1, n, n - 1, t);
      ConcatLonger(blocks, n - 1);
      hide Got, Reaches, AcceptAll, Concat;
      GotData(blocks, destsz, run, l, n - 1, n, n, t);
      assert Reaches(Begun(blocks), destsz, run, l) && l.current == |blocks|;
    }
  }

  /** A frame that comes twice is acknowledged twice, and the sender of a file of two blocks is done: the
      second one was never taken. */
  lemma SecondAckLosesBlock(a: seq<Byte>, b: seq<Byte>, destsz: nat) returns (l: Link)
    requires a != [] && b != [] && |a| + |b| <= destsz
    ensures Reaches(Begun([a, b]), destsz, [Arrives(0), Arrives(0), Advances, Advances], l)
    ensures l.current == 2 && AcceptAll(l.frames, destsz).data == a
  {
    var blocks := [a, b];
    hide Got;
    NothingYet(blocks, destsz);
    var run;
    run, l := NewBlock(blocks, destsz, [], Begun(blocks), 0, 0, MAX_RETRANS);
    run, l := BlockAgain(blocks, destsz, run, l, 0, 1, MAX_RETRANS);
    run, l := AckTaken(blocks, destsz, run, l, 1, 2, 0, MAX_RETRANS - 1);
    run, l := AckTaken(blocks, destsz, run, l, 1, 2, 1, MAX_RETRANS - 1);
    assert run == [Arrives(0), Arrives(0), Advances, Advances];
    GotData(blocks, destsz, run, l, 1, 2, 2, MAX_RETRANS - 1);
    ConcatNext(blocks, 0);
    assert Concat(blocks[..0]) == [] && Concat(blocks[..1]) == a;
  }

  lemma GotData(blocks: seq<seq<Byte>>, destsz: nat, run: seq<Event>, l: Link, n: nat, m: nat, c: nat, t: nat)
    requires Got(blocks, destsz, run, l, n, m, c, t)
    ensures n <= |blocks| && AcceptAll(l.frames, destsz).data == Clip(Concat(blocks[..n]), destsz)
    ensures Reaches(Begun(blocks), destsz, run, l) && l.current == c
  {
  }

  // ---------- from the frames in the input to a run ----------

  /** The frames are copies of blocks sent: when the i-th arrived, at most i ACKs had been sent, and a block
      comes no more once the next but one has. */
  ghost predicate SentAs(blocks: seq<seq<Byte>>, frames: seq<Frame>, b: seq<nat>) {
    && |b| == |frames|
    && (forall i | 0 <= i < |b| :: b[i] < |blocks| && b[i] <= i && frames[i] == BlockFrame(blocks, b[i]))
    && forall i, j | 0 <= i < j < |b| :: b[i] <= b[j] + 1
  }

  function Furthest(b: seq<nat>): nat { if b == [] then 0 else Max(Furthest(b[..|b| - 1]), b[|b| - 1]) }

  /** The blocks taken from frames that are copies of blocks b. */
  function TakenFrom(frames: seq<Frame>, b: seq<nat>, destsz: nat): seq<nat>
    requires |b| == |frames|
  {
    if b == [] then []
    else
      var n := |b| - 1;
      TakenFrom(frames[..n], b[..n], destsz)
      + if frames[n].number == AcceptAll(frames[..n], destsz).packetno then [b[n]] else []
  }

  /** No block sent so far is 256 blocks ahead of the one waited for. */
  ghost predicate Near(frames: seq<Frame>, b: seq<nat>, destsz: nat)
    requires |b| == |frames|
  {
    forall i | 0 <= i < |b| :: Furthest(b[..i + 1]) < |TakenFrom(frames[..i], b[..i], destsz)| + 256
  }

  lemma {:induction false} FurthestBound(b: seq<nat>, c: nat)
    requires forall i | 0 <= i < |b| :: b[i] <= c
    ensures Furthest(b) <= c
  {
    if b != [] {
      FurthestBound(b[..|b| - 1], c);
    }
  }

  lemma {:induction false} StaysCloseOne(l: Link, destsz: nat, run: seq<Event>, l1: Link, e: Event)
    requires Reaches(l, destsz, run, l1) && StaysClose(l, destsz, run) && Enabled(l1, destsz, e)
    requires e.Arrives? ==> Close(l1)
    ensures StaysClose(l, destsz, run + [e])
    decreases |run|
  {
    hide Enabled, Apply, Close;
    if run == [] {
      assert run + [e] == [e] && [e][1..] == [];
    } else {
      StaysCloseOne(Apply(l, destsz, run[0]), destsz, run[1..], l1, e);
      assert (run + [e])[1..] == run[1..] + [e];
    }
  }

  /** The sender goes on to the block it has sent next. */
  lemma AdvancesTo(blocks: seq<seq<Byte>>, destsz: nat, run: seq<Event>, l: Link, b: nat)
    returns (run': seq<Event>, l': Link)
    requires Reaches(Begun(blocks), destsz, run, l) && l.blocks == blocks
    requires l.current <= b < |blocks| && b <= AcksSent(l, destsz)
    ensures Reaches(Begun(blocks), destsz, run', l') && l' == l.(current := b)
    ensures StaysClose(Begun(blocks), destsz, run) ==> StaysClose(Begun(blocks), destsz, run')
  {
    hide Reaches, StaysClose, AcceptAll;
    run', l' := run, l;
    for c := l.current to b
      invariant Reaches(Begun(blocks), destsz, run', l') && l' == l.(current := c)
      invariant StaysClose(Begun(blocks), destsz, run) ==> StaysClose(Begun(blocks), destsz, run')
    {
      ReachesOne(Begun(blocks), destsz, run', l', Advances);
      if StaysClose(Begun(blocks), destsz, run') {
        StaysCloseOne(Begun(blocks), destsz, run', l', Advances);
      }
      run', l' := run' + [Advances], Apply(l', destsz, Advances);
    }
  }

  /** Such frames are those of a run. */
  lemma {:induction false} RunOf(blocks: seq<seq<Byte>>, destsz: nat, frames: seq<Frame>, b: seq<nat>)
    returns (run: seq<Event>, l: Link)
    requires SentAs(blocks, frames, b) && Wellreceived(frames, destsz)
    ensures Reaches(Begun(blocks), destsz, run, l) && l.frames == frames && l.blocks == blocks
    ensures l.last == l.current == Furthest(b) && l.taken == TakenFrom(frames, b, destsz)
    ensures Near(frames, b, destsz) ==> StaysClose(Begun(blocks), destsz, run)
  {
    if b == [] {
      run, l := [], Begun(blocks);
    } else {
      var n := |b| - 1;
      SentBefore(blocks, frames, b);
      hide Reaches, StaysClose, Near, SentAs;
      run, l := RunOf(blocks, destsz, frames[..n], b[..n]);
      if Near(frames, b, destsz) {
        NearBefore(frames, b, destsz);
      }
      run, l := RunOfNext(blocks, destsz, frames, b, run, l);
    }
  }

  lemma SentBefore(blocks: seq<seq<Byte>>, frames: seq<Frame>, b: seq<nat>)
    requires SentAs(blocks, frames, b) && b != []
    ensures var n := |b| - 1;
            && SentAs(blocks, frames[..n], b[..n]) && b[n] < |blocks| && frames[n] == BlockFrame(blocks, b[n])
            && frames == frames[..n] + [frames[n]]
  {
    hide BlockFrame;
  }

  lemma SentFurthest(blocks: seq<seq<Byte>>, frames: seq<Frame>, b: seq<nat>)
    requires SentAs(blocks, frames, b) && b != []
    ensures var n := |b| - 1;
            Furthest(b[..n]) <= b[n] + 1 && Furthest(b) <= n && b[n] <= Furthest(b) < |blocks|
  {
    var n := |b| - 1;
    hide BlockFrame;
    assert forall i | 0 <= i < n :: b[i] <= b[n] + 1;
    assert forall i | 0 <= i < |b| :: b[i] <= n && b[i] <= |blocks| - 1;
    FurthestBound(b[..n], b[n] + 1);
    FurthestBound(b, n);
    FurthestBound(b, |blocks| - 1);
  }

  /** The last frame of the run comes. */
  lemma RunOfNext(blocks: seq<seq<Byte>>, destsz: nat, frames: seq<Frame>, b: seq<nat>, run: seq<Event>, l: Link)
    returns (run': seq<Event>, l': Link)
    requires SentAs(blocks, frames, b) && Wellreceived(frames, destsz) && b != []
    requires var n := |b| - 1;
             && Reaches(Begun(blocks), destsz, run, l) && l.frames == frames[..n] && l.blocks == blocks
             && l.last == l.current == Furthest(b[..n]) && l.taken == TakenFrom(frames[..n], b[..n], destsz)
    ensures Reaches(Begun(blocks), destsz, run', l') && l'.frames == frames && l'.blocks == blocks
    ensures l'.last == l'.current == Furthest(b) && l'.taken == TakenFrom(frames, b, destsz)
    ensures StaysClose(Begun(blocks), destsz, run) && Furthest(b) < |l.taken| + 256 ==>
              StaysClose(Begun(blocks), destsz, run')
  {
    var n := |b| - 1;
    SentBefore(blocks, frames, b);
    SentFurthest(blocks, frames, b);
    hide SentAs, Number;
    assert Wanted(AcceptAll(l.frames, destsz), frames[n].number) && AcceptAll(l.frames, destsz).retrans > 0;
    hide Reaches, StaysClose, AcceptAll, Wellreceived;
    var run1, l1 := AdvancesTo(blocks, destsz, run, l, Furthest(b));
    ReachesOne(Begun(blocks), destsz, run1, l1, Arrives(b[n]));
    if StaysClose(Begun(blocks), destsz, run) && Furthest(b) < |l.taken| + 256 {
      StaysCloseOne(Begun(blocks), destsz, run1, l1, Arrives(b[n]));
    }
    run', l' := run1 + [Arrives(b[n])], Apply(l1, destsz, Arrives(b[n]));
  }

  lemma NearBefore(frames: seq<Frame>, b: seq<nat>, destsz: nat)
    requires |b| == |frames| > 0 && Near(frames, b, destsz)
    ensures var n := |b| - 1;
            Near(frames[..n], b[..n], destsz) && Furthest(b) < |TakenFrom(frames[..n], b[..n], destsz)| + 256
  {
    var n := |b| - 1;
    assert b[..n + 1] == b;
    forall i | 0 <= i < n
      ensures Furthest(b[..n][..i + 1]) < |TakenFrom(frames[..n][..i], b[..n][..i], destsz)| + 256
    {
      assert b[..n][..i + 1] == b[..i + 1] && b[..n][..i] == b[..i] && frames[..n][..i] == frames[..i];
    }
  }

  /** The frames of every run are such. */
  lemma {:induction false} RunSends(l: Link, destsz: nat, run: seq<Event>, l': Link, b: seq<nat>)
    returns (b': seq<nat>)
    requires Counted(l, destsz) && Reaches(l, destsz, run, l')
    requires SentAs(l.blocks, l.frames, b) && forall i | 0 <= i < |b| :: b[i] <= l.last
    ensures SentAs(l'.blocks, l'.frames, b')
    decreases |run|
  {
    if run == [] {
      b' := b;
    } else {
      StepCounted(l, destsz, run[0]);
      var b1 := StepSends(l, destsz, run[0], b);
      hide Counted, SentAs, Apply, Enabled;
      b' := RunSends(Apply(l, destsz, run[0]), destsz, run[1..], l', b1);
    }
  }

  lemma StepSends(l: Link, destsz: nat, e: Event, b: seq<nat>) returns (b': seq<nat>)
    requires Counted(l, destsz) && Enabled(l, destsz, e)
    requires SentAs(l.blocks, l.frames, b) && forall i | 0 <= i < |b| :: b[i] <= l.last
    ensures var l' := Apply(l, destsz, e);
            SentAs(l'.blocks, l'.frames, b') && forall i | 0 <= i < |b'| :: b'[i] <= l'.last
  {
    hide AcceptAll, Wellreceived, Number, NextNumber;
    b' := if Apply(l, destsz, e).frames == l.frames then b else b + [e.block];
  }

  /** The frames a run can make the receiver find good are exactly those. */
  lemma FramesIff(blocks: seq<seq<Byte>>, destsz: nat, frames: seq<Frame>)
    ensures (exists run, l :: Reaches(Begun(blocks), destsz, run, l) && l.frames == frames)
            <==> Wellreceived(frames, destsz) && exists b :: SentAs(blocks, frames, b)
  {
    if run, l :| Reaches(Begun(blocks), destsz, run, l) && l.frames == frames {
      BegunInStep(blocks, destsz);
      RunCounted(Begun(blocks), destsz, run, l);
      var b := RunSends(Begun(blocks), destsz, run, l, []);
      assert SentAs(blocks, frames, b);
    }
    if b :| Wellreceived(frames, destsz) && SentAs(blocks, frames, b) {
      var run, l := RunOf(blocks, destsz, frames, b);
      assert Reaches(Begun(blocks), destsz, run, l) && l.frames == frames;
    }
  }

  /** What Receive leaves in memory and returns, when the good frames in its input are copies of blocks sent:
      the beginning of the file, however often frames were repeated and ACKs taken for others; and when they
      are as many as the file has blocks, so that the sender can be done, no less than the first
      Fewest(|blocks|) blocks of it. */
  lemma ReceivedSafely(blocks: seq<seq<Byte>>, b: seq<nat>, destsz: nat, input: seq<int>, crc: bool,
                       frames: seq<Frame>, starts: seq<nat>, dest: seq<Byte>, before: seq<Byte>, result: int)
    requires Receiving(input, |input|, crc, frames, starts, destsz, AcceptAll(frames, destsz))
    requires Holds(dest, before, AcceptAll(frames, destsz), destsz)
    requires result >= 0 ==> result == |AcceptAll(frames, destsz).data|
    requires result == -3 <==> AcceptAll(frames, destsz).retrans <= 0
    requires SentAs(blocks, frames, b) && (|blocks| <= SAFE_BLOCKS || Near(frames, b, destsz))
    ensures var n, file := |AcceptAll(frames, destsz).data|, Concat(blocks);
            n <= destsz && n <= |file| && dest[..n] == file[..n] && dest[n..] == before[n..]
    ensures result >= 0 && |blocks| <= |frames| ==> |Clip(Concat(blocks[..Fewest(|blocks|)]), destsz)| <= result
  {
    hide FromInput;
    var run, l := RunOf(blocks, destsz, frames, b);
    BegunInStep(blocks, destsz);
    hide Reaches, Wellreceived, AcceptAll, Concat, SentAs, Near, InOrder;
    if |blocks| <= SAFE_BLOCKS {
      ShortStaysClose(Begun(blocks), destsz, run, l);
    }
    Safety(blocks, destsz, run, l);
    RunInStep(Begun(blocks), destsz, run, l);
    if result >= 0 && |blocks| <= |frames| {
      AtLeastFewest(l, destsz);
      ClipConcat(blocks, Fewest(|blocks|), |l.taken|, destsz);
    }
  }
}
