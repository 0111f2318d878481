/** Stream and message buffers (stream_buffer.c): a byte ring with one writer and one reader that take
    no lock while they copy. */
module StreamBuffers {
  import opened Wrappers

  /** The range of size_t. */
  const SIZES := 0x1_0000_0000

  /** The longest ring whose counts come out right wherever its positions are. */
  const MAX_LENGTH := 0x8000_0000

  // ---------- counting, in size_t arithmetic ----------

  function ToSize(x: int): (r: nat) { x % SIZES }

  /** prvBytesInBuffer */
  function BytesIn(length: nat, head: nat, tail: nat): nat {
    var count := ToSize(ToSize(length + head) - tail);
    if count >= length then ToSize(count - length) else count
  }

  /** xStreamBufferSpacesAvailable */
  function Spaces(length: nat, head: nat, tail: nat): nat {
    var space := ToSize(ToSize(ToSize(length + tail) - head) - 1);
    if space >= length then ToSize(space - length) else space
  }

  /** The bytes from the tail on to the head. */
  function Unread(length: nat, head: nat, tail: nat): nat
    requires head < length && tail < length
  {
    if head >= tail then head - tail else length - tail + head
  }

  lemma SubWrap(a: int, b: int)
    ensures ToSize(ToSize(a) - b) == ToSize(a - b)
  {
    assert ToSize(a) == a - SIZES * (a / SIZES);
    assert (a - b) == ToSize(a) - b + SIZES * (a / SIZES);
    AddMultiple(ToSize(a) - b, a / SIZES, SIZES);
  }

  lemma SmallSize(x: int)
    ensures 0 <= x < SIZES ==> ToSize(x) == x
    ensures SIZES <= x < 2 * SIZES ==> ToSize(x) == x - SIZES
  {
  }

  /** The counts are right exactly when the sums they start from stay below 2^32. */
  lemma BytesRight(length: nat, head: nat, tail: nat)
    requires head < length < SIZES && tail < length
    ensures BytesIn(length, head, tail) == Unread(length, head, tail) <==> length + head - tail < SIZES
  {
    SubWrap(length + head, tail);
    SmallSize(length + head - tail);
    SmallSize(length + head - tail - length);
    hide ToSize;
  }

  lemma SpacesRight(length: nat, head: nat, tail: nat)
    requires head < length < SIZES && tail < length
    ensures Spaces(length, head, tail) == length - 1 - Unread(length, head, tail) <==> length + tail - head - 1 < SIZES
  {
    SubWrap(length + tail, head);
    SubWrap(length + tail - head, 1);
    SmallSize(length + tail - head - 1);
    SmallSize(length + tail - head - 1 - length);
    hide ToSize;
  }

  ghost predicate CountsAlwaysRight(length: nat) {
    forall head: nat, tail: nat | head < length && tail < length ::
      && BytesIn(length, head, tail) == Unread(length, head, tail)
      && Spaces(length, head, tail) == length - 1 - Unread(length, head, tail)
  }

  /** They are right for all positions exactly when the ring has at most 2^31 bytes. */
  lemma CountsRightIff(length: nat)
    requires 0 < length < SIZES
    ensures CountsAlwaysRight(length) <==> length <= MAX_LENGTH
  {
    if length <= MAX_LENGTH {
      forall head: nat, tail: nat | head < length && tail < length
        ensures BytesIn(length, head, tail) == Unread(length, head, tail)
        ensures Spaces(length, head, tail) == length - 1 - Unread(length, head, tail)
      {
        RightAt(length, head, tail);
      }
    } else {
      BytesRight(length, length - 1, 0);
      assert BytesIn(length, length - 1, 0) != Unread(length, length - 1, 0);
    }
  }

  lemma RightAt(length: nat, head: nat, tail: nat)
    requires head < length <= MAX_LENGTH && tail < length
    ensures BytesIn(length, head, tail) == Unread(length, head, tail)
    ensures Spaces(length, head, tail) == length - 1 - Unread(length, head, tail)
  {
    BytesRight(length, head, tail);
    SpacesRight(length, head, tail);
  }

  // ---------- stretches of the ring ----------

  function Wrap(length: nat, i: nat): nat
    requires i < 2 * length
  {
    if i >= length then i - length else i
  }

  /** n bytes from position from on, going round. */
  function Cells(buf: seq<Byte>, from: nat, n: nat): (s: seq<Byte>)
    requires from < |buf| && n <= |buf|
    ensures |s| == n && forall i | 0 <= i < n :: s[i] == buf[Wrap(|buf|, from + i)]
  {
    seq(n, i requires 0 <= i < n => buf[Wrap(|buf|, from + i)])
  }

  lemma CellsSplit(buf: seq<Byte>, from: nat, n: nat, m: nat)
    requires from < |buf| && n + m <= |buf| && n < |buf|
    ensures Cells(buf, from, n + m) == Cells(buf, from, n) + Cells(buf, Wrap(|buf|, from + n), m)
  {
  }

  /** Position p is one of n from position from on. */
  predicate Within(length: nat, from: nat, n: nat, p: nat) {
    from <= p < from + n || p + length < from + n
  }

  lemma CellsFrame(buf: seq<Byte>, buf': seq<Byte>, from: nat, n: nat)
    requires from < |buf| == |buf'| && n <= |buf|
    requires forall p | 0 <= p < |buf| && Within(|buf|, from, n, p) :: buf'[p] == buf[p]
    ensures Cells(buf', from, n) == Cells(buf, from, n)
  {
  }

  // ---------- stream mode: a writer and a reader, interleaved ----------

  datatype Writer =
    | WriterIdle
    | Writing(data: seq<Byte>, done: nat)  // done bytes of data are in the ring, xHead has not moved

  datatype Reader =
    | ReaderIdle
    | Reading(count: nat, out: seq<Byte>)  // of count bytes these have been copied, xTail has not moved

  /** sent is what the sends that have returned have accepted, received what the receives that have
      returned have delivered. */
  datatype Stream = Stream(buf: seq<Byte>, head: nat, tail: nat, writer: Writer, reader: Reader,
                           sent: seq<Byte>, received: seq<Byte>)

  datatype Step =
    | BeginSend(data: seq<Byte>)
    | StoreByte
    | StoreHead
    | BeginReceive(max: nat)
    | LoadByte
    | StoreTail

  ghost predicate Bounds(s: Stream) {
    0 < |s.buf| <= MAX_LENGTH && s.head < |s.buf| && s.tail < |s.buf|
  }

  ghost function InRing(s: Stream): seq<Byte>
    requires Bounds(s)
  {
    Cells(s.buf, s.tail, Unread(|s.buf|, s.head, s.tail))
  }

  ghost predicate Inv(s: Stream) {
    && Bounds(s)
    && s.sent == s.received + InRing(s)
    && (s.writer.Writing? ==>
          && 0 < |s.writer.data| < |s.buf| - |InRing(s)| && s.writer.done <= |s.writer.data|
          && Cells(s.buf, s.head, s.writer.done) == s.writer.data[..s.writer.done])
    && (s.reader.Reading? ==>
          && |s.reader.out| <= s.reader.count && 0 < s.reader.count <= |InRing(s)|
          && s.reader.out == InRing(s)[..|s.reader.out|])
  }

  ghost predicate Enabled(s: Stream, step: Step) {
    match step
    case BeginSend(data) => s.writer == WriterIdle && data != []
    case StoreByte => s.writer.Writing? && s.writer.done < |s.writer.data|
    case StoreHead => s.writer.Writing? && s.writer.done == |s.writer.data|
    case BeginReceive(max) => s.reader == ReaderIdle
    case LoadByte => s.reader.Reading? && |s.reader.out| < s.reader.count
    case StoreTail => s.reader.Reading? && |s.reader.out| == s.reader.count
  }

  /** One step of either side: the counts read the other side's position once, the copies go byte by
      byte, and the own position is stored at the end. */
  ghost function Apply(s: Stream, step: Step): Stream
    requires Inv(s) && Enabled(s, step)
  {
    var length := |s.buf|;
    match step
    case BeginSend(data) =>
      var n := Min(|data|, Spaces(length, s.head, s.tail));
      if n == 0 then s else s.(writer := Writing(data[..n], 0))
    case StoreByte =>
      var i := s.writer.done;
      s.(buf := s.buf[Wrap(length, s.head + i) := s.writer.data[i]], writer := Writing(s.writer.data, i + 1))
    case StoreHead =>
      s.(head := Wrap(length, s.head + |s.writer.data|), writer := WriterIdle, sent := s.sent + s.writer.data)
    case BeginReceive(max) =>
      var n := Min(BytesIn(length, s.head, s.tail), max);
      if n == 0 then s else s.(reader := Reading(n, []))
    case LoadByte =>
      var out := s.reader.out;
      s.(reader := Reading(s.reader.count, out + [s.buf[Wrap(length, s.tail + |out|)]]))
    case StoreTail =>
      s.(tail := Wrap(length, s.tail + |s.reader.out|), reader := ReaderIdle, received := s.received + s.reader.out)
  }

  /** A store by the writer never hits a byte that has not been read. */
  lemma UnreadKept(s: Stream)
    requires Inv(s) && Enabled(s, StoreByte)
    ensures var s' := Apply(s, StoreByte); Bounds(s') && InRing(s') == InRing(s)
  {
    CellsFrame(s.buf, Apply(s, StoreByte).buf, s.tail, |InRing(s)|);
  }

  lemma StoreByteInv(s: Stream)
    requires Inv(s) && Enabled(s, StoreByte)
    ensures Inv(Apply(s, StoreByte))
  {
    UnreadKept(s);
    var s' := Apply(s, StoreByte);
    CellsFrame(s.buf, s'.buf, s.head, s.writer.done);
    CellsSplit(s'.buf, s.head, s.writer.done, 1);
  }

  lemma StoreHeadInv(s: Stream)
    requires Inv(s) && Enabled(s, StoreHead)
    ensures Inv(Apply(s, StoreHead))
  {
    var n := |InRing(s)|;
    CellsSplit(s.buf, s.tail, n, |s.writer.data|);
    assert Wrap(|s.buf|, s.tail + n) == s.head;
    assert InRing(Apply(s, StoreHead)) == InRing(s) + s.writer.data;
  }

  lemma RingAfterRead(s: Stream)
    requires Bounds(s) && s.reader.Reading? && |s.reader.out| <= |InRing(s)|
               && s.reader.out == InRing(s)[..|s.reader.out|]
    ensures var s' := s.(tail := Wrap(|s.buf|, s.tail + |s.reader.out|));
            Bounds(s') && InRing(s) == s.reader.out + InRing(s')
  {
    CellsSplit(s.buf, s.tail, |s.reader.out|, |InRing(s)| - |s.reader.out|);
  }

  lemma StoreTailInv(s: Stream)
    requires Inv(s) && Enabled(s, StoreTail)
    ensures Inv(Apply(s, StoreTail))
  {
    RingAfterRead(s);
    var s1, s' := s.(tail := Wrap(|s.buf|, s.tail + |s.reader.out|)), Apply(s, StoreTail);
    assert InRing(s') == InRing(s1);
    hide InRing;
    Regroup(s.received, s.reader.out, InRing(s'));
  }

  lemma Regroup(a: seq<Byte>, b: seq<Byte>, c: seq<Byte>)
    ensures a + (b + c) == a + b + c
  {
  }

  lemma StepInv(s: Stream, step: Step)
    requires Inv(s) && Enabled(s, step)
    ensures Inv(Apply(s, step))
  {
    match step
    case BeginSend(data) => RightAt(|s.buf|, s.head, s.tail);
    case StoreByte => StoreByteInv(s);
    case StoreHead => StoreHeadInv(s);
    case BeginReceive(max) => RightAt(|s.buf|, s.head, s.tail);
    case LoadByte =>
    case StoreTail => StoreTailInv(s);
  }

  ghost predicate Reaches(s: Stream, run: seq<Step>, s': Stream)
    decreases |run|
  {
    if run == [] then s' == s
    else Inv(s) && Enabled(s, run[0]) && Reaches(Apply(s, run[0]), run[1..], s')
  }

  /** A new stream buffer for size bytes, whatever its memory holds. */
  ghost predicate Initial(s: Stream, size: nat) {
    && 0 < size < MAX_LENGTH && |s.buf| == size + 1 && s.head == s.tail == 0
    && s.writer == WriterIdle && s.reader == ReaderIdle && s.sent == s.received == []
  }

  lemma {:induction false} RunInv(s: Stream, run: seq<Step>, s': Stream)
    requires Inv(s) && Reaches(s, run, s')
    ensures Inv(s') && |s'.buf| == |s.buf|
    decreases |run|
  {
    if run != [] {
      StepInv(s, run[0]);
      RunInv(Apply(s, run[0]), run[1..], s');
    }
  }

  /** In every state that any interleaving reaches, what was sent is what was received followed by what
      is in the ring, and bytes and spaces available, as computed, add up to the size. */
  lemma RefinesFifo(s: Stream, size: nat, run: seq<Step>, s': Stream)
    requires Initial(s, size) && Reaches(s, run, s')
    ensures Bounds(s') && s'.sent == s'.received + InRing(s')
    ensures BytesIn(|s'.buf|, s'.head, s'.tail) == |InRing(s')|
    ensures BytesIn(|s'.buf|, s'.head, s'.tail) + Spaces(|s'.buf|, s'.head, s'.tail) == size
  {
    RunInv(s, run, s');
    RightAt(|s'.buf|, s'.head, s'.tail);
  }

  /** The send begun in state b has got to s: none of its data counts as sent until all of it does. */
  ghost predicate Sending(b: Stream, s: Stream, accepted: seq<Byte>) {
    match s.writer
    case Writing(data, _) => data == accepted && s.sent == b.sent
    case WriterIdle => s.sent == b.sent + accepted
  }

  lemma {:induction false} SendingRun(b: Stream, s: Stream, run: seq<Step>, s': Stream, accepted: seq<Byte>)
    requires Inv(s) && Reaches(s, run, s') && Sending(b, s, accepted)
    requires forall i | 0 <= i < |run| :: !run[i].BeginSend?
    ensures Sending(b, s', accepted)
    decreases |run|
  {
    if run != [] {
      StepInv(s, run[0]);
      SendingRun(b, Apply(s, run[0]), run[1..], s', accepted);
    }
  }

  /** Whatever the reader does meanwhile, a send accepts as much of its data as there was space for when it
      began, no less and no more: at every moment from then until the next send begins, either it is still
      at work and nothing has been added to what was sent, or exactly that has. */
  lemma EverySendAccepts(s: Stream, data: seq<Byte>, run: seq<Step>, s': Stream)
    requires Inv(s) && Enabled(s, BeginSend(data)) && Reaches(Apply(s, BeginSend(data)), run, s')
    requires forall i | 0 <= i < |run| :: !run[i].BeginSend?
    ensures |InRing(s)| < |s.buf|
    ensures var accepted := data[..Min(|data|, |s.buf| - 1 - |InRing(s)|)];
            if s'.writer == WriterIdle then s'.sent == s.sent + accepted
            else s'.sent == s.sent && s'.writer.data == accepted
  {
    RightAt(|s.buf|, s.head, s.tail);
    StepInv(s, BeginSend(data));
    assert data[..0] == [];
    SendingRun(s, Apply(s, BeginSend(data)), run, s', data[..Min(|data|, |s.buf| - 1 - |InRing(s)|)]);
  }

  /** The same for a receive and what it will deliver. */
  ghost predicate Receiving(b: Stream, s: Stream, delivered: seq<Byte>) {
    match s.reader
    case Reading(count, out) =>
      && s.received == b.received && Bounds(s) && count == |delivered| <= |InRing(s)|
      && InRing(s)[..count] == delivered
    case ReaderIdle => s.received == b.received + delivered
  }

  /** What is in the ring stays there, in front of what is added, as long as the tail does not move. */
  lemma RingGrows(s: Stream, step: Step)
    requires Inv(s) && Enabled(s, step) && !step.StoreTail?
    ensures var s' := Apply(s, step);
            Bounds(s') && |InRing(s)| <= |InRing(s')| && InRing(s')[..|InRing(s)|] == InRing(s)
  {
    match step
    case StoreByte => UnreadKept(s);
    case StoreHead => CellsSplit(s.buf, s.tail, |InRing(s)|, |s.writer.data|);
    case _ =>
  }

  lemma ReceivingStep(b: Stream, s: Stream, step: Step, delivered: seq<Byte>)
    requires Inv(s) && Enabled(s, step) && Receiving(b, s, delivered) && !step.BeginReceive?
    ensures Receiving(b, Apply(s, step), delivered)
  {
    if step.StoreTail? {
      assert s.reader.out == InRing(s)[..|s.reader.out|];
    } else {
      RingGrows(s, step);
      hide InRing;
      if s.reader.Reading? {
        var r, r' := InRing(s), InRing(Apply(s, step));
        assert r'[..s.reader.count] == r'[..|r|][..s.reader.count];
      }
    }
  }

  lemma {:induction false} ReceivingRun(b: Stream, s: Stream, run: seq<Step>, s': Stream, delivered: seq<Byte>)
    requires Inv(s) && Reaches(s, run, s') && Receiving(b, s, delivered)
    requires forall i | 0 <= i < |run| :: !run[i].BeginReceive?
    ensures Receiving(b, s', delivered)
    decreases |run|
  {
    hide Inv, Receiving, Apply, Enabled;
    if run != [] {
      StepInv(s, run[0]);
      ReceivingStep(b, s, run[0], delivered);
      ReceivingRun(b, Apply(s, run[0]), run[1..], s', delivered);
    }
  }

  /** Whatever the writer does meanwhile, a receive delivers, in order, as much as was there when it began,
      up to what the caller has room for, all at once. */
  lemma EveryReceiveDelivers(s: Stream, max: nat, run: seq<Step>, s': Stream)
    requires Inv(s) && Enabled(s, BeginReceive(max)) && Reaches(Apply(s, BeginReceive(max)), run, s')
    requires forall i | 0 <= i < |run| :: !run[i].BeginReceive?
    ensures var delivered := InRing(s)[..Min(|InRing(s)|, max)];
            s'.received == if s'.reader == ReaderIdle then s.received + delivered else s.received
  {
    RightAt(|s.buf|, s.head, s.tail);
    StepInv(s, BeginReceive(max));
    assert InRing(s)[..0] == [];
    ReceivingRun(s, Apply(s, BeginReceive(max)), run, s', InRing(s)[..Min(|InRing(s)|, max)]);
  }

  /** From wherever a send has got to, the writer can finish it, and then all of its data is sent. */
  lemma {:induction false} FinishSend(s: Stream) returns (run: seq<Step>, s': Stream)
    requires Inv(s) && s.writer.Writing?
    ensures Reaches(s, run, s') && |s'.buf| == |s.buf| && s'.writer == WriterIdle && s'.reader == s.reader
    ensures s'.sent == s.sent + s.writer.data && s'.received == s.received
    decreases if s.writer.Writing? then |s.writer.data| - s.writer.done else 0
  {
    if s.writer.done == |s.writer.data| {
      run, s' := [StoreHead], Apply(s, StoreHead);
      StepInv(s, StoreHead);
      assert Reaches(Apply(s, run[0]), run[1..], s');
    } else {
      StepInv(s, StoreByte);
      run, s' := FinishSend(Apply(s, StoreByte));
      assert ([StoreByte] + run)[1..] == run;
      run := [StoreByte] + run;
    }
  }

  /** A send accepts as much of its data as there was space for when it began. */
  lemma SendAccepts(s: Stream, data: seq<Byte>) returns (run: seq<Step>, s': Stream)
    requires Inv(s) && Enabled(s, BeginSend(data))
    ensures Reaches(s, run, s') && Inv(s') && s'.writer == WriterIdle && s'.received == s.received
    ensures |InRing(s)| < |s.buf| && s'.sent == s.sent + data[..Min(|data|, |s.buf| - 1 - |InRing(s)|)]
  {
    RightAt(|s.buf|, s.head, s.tail);
    StepInv(s, BeginSend(data));
    s' := Apply(s, BeginSend(data));
    run := [];
    if s'.writer.Writing? {
      run, s' := FinishSend(s');
    } else {
      assert data[..0] == [];
    }
    assert ([BeginSend(data)] + run)[1..] == run;
    run := [BeginSend(data)] + run;
    RunInv(s, run, s');
  }

  lemma {:induction false} FinishReceive(s: Stream) returns (run: seq<Step>, s': Stream)
    requires Inv(s) && s.reader.Reading?
    ensures Reaches(s, run, s') && s'.reader == ReaderIdle && s'.sent == s.sent
    ensures s'.received == s.received + InRing(s)[..s.reader.count]
    decreases if s.reader.Reading? then s.reader.count - |s.reader.out| else 0
  {
    if s.reader.count == |s.reader.out| {
      run, s' := [StoreTail], Apply(s, StoreTail);
      StepInv(s, StoreTail);
      assert Reaches(Apply(s, run[0]), run[1..], s');
    } else {
      StepInv(s, LoadByte);
      run, s' := FinishReceive(Apply(s, LoadByte));
      assert ([LoadByte] + run)[1..] == run;
      run := [LoadByte] + run;
    }
  }

  /** A receive delivers as much as was there when it began, up to what the caller has room for. */
  lemma ReceiveDelivers(s: Stream, max: nat) returns (run: seq<Step>, s': Stream)
    requires Inv(s) && Enabled(s, BeginReceive(max))
    ensures Reaches(s, run, s') && Inv(s') && s'.reader == ReaderIdle && s'.sent == s.sent
    ensures s'.received == s.received + InRing(s)[..Min(|InRing(s)|, max)]
  {
    RightAt(|s.buf|, s.head, s.tail);
    StepInv(s, BeginReceive(max));
    s' := Apply(s, BeginReceive(max));
    run := [];
    if s'.reader.Reading? {
      run, s' := FinishReceive(s');
    } else {
      assert InRing(s)[..0] == [];
    }
    assert ([BeginReceive(max)] + run)[1..] == run;
    run := [BeginReceive(max)] + run;
    RunInv(s, run, s');
  }

  // ---------- message mode: frames ----------

  /** A size_t in memory, least significant byte first. */
  function LengthBytes(n: nat): (b: seq<Byte>)
    requires n < SIZES
    ensures |b| == 4
  {
    [n % 256, n / 0x100 % 256, n / 0x1_0000 % 256, n / 0x100_0000]
  }

  function FromBytes(b0: Byte, b1: Byte, b2: Byte, b3: Byte): nat {
    b0 + b1 * 0x100 + b2 * 0x1_0000 + b3 * 0x100_0000
  }

  lemma LengthRoundTrip(n: nat)
    requires n < SIZES
    ensures var b := LengthBytes(n); FromBytes(b[0], b[1], b[2], b[3]) == n
  {
    var n1 := n / 0x100;
    var n2 := n1 / 0x100;
    var n3 := n2 / 0x100;
    assert n / 0x1_0000 == n2 && n / 0x100_0000 == n3;
  }

  /** Messages as they are sent: none is empty, and the length fits a size_t. */
  ghost predicate AreMessages(ms: seq<seq<Byte>>) {
    forall i | 0 <= i < |ms| :: 0 < |ms[i]| < SIZES
  }

  /** Each message with its length in front. */
  ghost function Encode(ms: seq<seq<Byte>>): seq<Byte>
    requires AreMessages(ms)
  {
    if ms == [] then [] else LengthBytes(|ms[0]|) + ms[0] + Encode(ms[1..])
  }

  lemma {:induction false} EncodeMore(ms: seq<seq<Byte>>, m: seq<Byte>)
    requires AreMessages(ms) && 0 < |m| < SIZES
    ensures AreMessages(ms + [m]) && Encode(ms + [m]) == Encode(ms) + (LengthBytes(|m|) + m)
  {
    hide LengthBytes;
    assert AreMessages(ms + [m]);
    if ms == [] {
      assert ([m])[1..] == [];
      assert Encode([m]) == LengthBytes(|m|) + m + Encode([]);
    } else {
      EncodeMore(ms[1..], m);
      assert (ms + [m])[1..] == ms[1..] + [m];
      var f, e := LengthBytes(|ms[0]|) + ms[0], Encode(ms[1..]);
      assert f + (e + (LengthBytes(|m|) + m)) == f + e + (LengthBytes(|m|) + m);
    }
  }

  /** The messages a string of bytes parses as. */
  ghost function Parse(s: seq<Byte>): seq<seq<Byte>> {
    if |s| <= 4 then []
    else
      var n := FromBytes(s[0], s[1], s[2], s[3]);
      if n == 0 || 4 + n > |s| then [] else [s[4..4 + n]] + Parse(s[4 + n..])
  }

  /** What is in a message buffer can be read in one way only: as the messages sent. */
  lemma {:induction false} ParseEncode(ms: seq<seq<Byte>>)
    requires AreMessages(ms)
    ensures Parse(Encode(ms)) == ms
  {
    if ms != [] {
      ParseEncode(ms[1..]);
      ParseFirst(ms[0], Encode(ms[1..]));
      hide LengthBytes, Parse;
      assert ms == [ms[0]] + ms[1..];
    }
  }

  lemma ParseFirst(m: seq<Byte>, rest: seq<Byte>)
    requires 0 < |m| < SIZES
    ensures Parse(LengthBytes(|m|) + m + rest) == [m] + Parse(rest)
  {
    var s := LengthBytes(|m|) + m + rest;
    LengthRoundTrip(|m|);
    hide LengthBytes, FromBytes;
    ThreeParts(LengthBytes(|m|), m, rest);
    assert s[4..4 + |m|] == m && s[4 + |m|..] == rest;
  }

  lemma FirstFrame(ms: seq<seq<Byte>>)
    requires AreMessages(ms)
    ensures if ms == [] then Encode(ms) == [] else |Encode(ms)| >= 4 + |ms[0]| > 4
    ensures ms != [] ==>
              && AreMessages(ms[1..]) && Encode(ms)[..4] == LengthBytes(|ms[0]|)
              && Encode(ms)[4..][..|ms[0]|] == ms[0] && Encode(ms)[4..][|ms[0]|..] == Encode(ms[1..])
  {
    hide LengthBytes;
    if ms != [] {
      ThreeParts(LengthBytes(|ms[0]|), ms[0], Encode(ms[1..]));
    }
  }

  lemma ThreeParts(a: seq<Byte>, b: seq<Byte>, c: seq<Byte>)
    ensures var s := a + b + c; s[..|a|] == a && s[|a|..][..|b|] == b && s[|a|..][|b|..] == c
  {
    var s := a + b + c;
    assert s[|a|..] == b + c;
  }

  lemma FirstLength(ms: seq<seq<Byte>>, b: seq<Byte>)
    requires AreMessages(ms) && ms != [] && |b| == 4 && b == Encode(ms)[..4]
    ensures FromBytes(b[0], b[1], b[2], b[3]) == |ms[0]|
  {
    FirstFrame(ms);
    LengthRoundTrip(|ms[0]|);
  }

  // ---------- whole calls ----------

  /** memcpy between two arrays */
  method Copy(src: array<Byte>, from: nat, dst: array<Byte>, to: nat, n: nat)
    requires src != dst && from + n <= src.Length && to + n <= dst.Length
    modifies dst
    ensures forall i | 0 <= i < dst.Length :: dst[i] == if to <= i < to + n then src[from + i - to] else old(dst[i])
  {
    for k := 0 to n
      invariant forall i | 0 <= i < dst.Length :: dst[i] == if to <= i < to + k then src[from + i - to] else old(dst[i])
    {
      dst[to + k] := src[from + k];
    }
  }

  class StreamBuffer {
    const buffer: array<Byte>
    const isMessage: bool
    var head: nat
    var tail: nat
    /** In message mode: what has been sent and not received. */
    ghost var messages: seq<seq<Byte>>

    ghost predicate Bounded()
      reads this
    {
      0 < buffer.Length <= MAX_LENGTH && head < buffer.Length && tail < buffer.Length
    }

    ghost function Contents(): (s: seq<Byte>)
      requires Bounded()
      reads this, buffer
      ensures |s| == Unread(buffer.Length, head, tail)
    {
      Cells(buffer[..], tail, Unread(buffer.Length, head, tail))
    }

    /** A message buffer holds whole frames and nothing else. */
    ghost predicate Valid()
      reads this, buffer
    {
      Bounded() && (isMessage ==> AreMessages(messages) && Contents() == Encode(messages))
    }

    constructor (size: nat, isMessage: bool)
      requires 0 < size < MAX_LENGTH
      ensures Valid() && Contents() == [] && messages == [] && buffer.Length == size + 1
                && this.isMessage == isMessage && fresh(buffer)
    {
      buffer := new Byte[size + 1];
      this.isMessage := isMessage;
      head, tail, messages := 0, 0, [];
    }

    method BytesInBuffer() returns (n: nat)
      requires Bounded()
      ensures n == |Contents()|
    {
      RightAt(buffer.Length, head, tail);
      n := BytesIn(buffer.Length, head, tail);
    }

    method SpacesAvailable() returns (n: nat)
      requires Bounded()
      ensures n == buffer.Length - 1 - |Contents()|
    {
      RightAt(buffer.Length, head, tail);
      n := Spaces(buffer.Length, head, tail);
    }

    /** prvWriteBytesToBuffer: at most two copies, the second from the start of the ring. */
    method WriteBytes(data: array<Byte>, count: nat)
      requires Bounded() && data != buffer && 0 < count <= data.Length && count < buffer.Length - |Contents()|
      modifies buffer, this`head
      ensures Bounded() && Contents() == old(Contents()) + data[..count]
    {
      ghost var was, n := buffer[..], |Contents()|;
      var next := head;
      var first := Min(buffer.Length - next, count);
      Copy(data, 0, buffer, next, first);
      if count > first {
        Copy(data, first, buffer, 0, count - first);
      }
      Written(was, buffer[..], tail, n, head, data[..count]);
      next := next + count;
      if next >= buffer.Length {
        next := next - buffer.Length;
      }
      head := next;
    }

    /** The copies of prvReadBytesFromBuffer */
    method CopyOut(data: array<Byte>, count: nat)
      requires Bounded() && data != buffer && 0 < count <= data.Length && count <= buffer.Length
      modifies data
      ensures data[..count] == Cells(buffer[..], tail, count) && data[count..] == old(data[count..])
    {
      hide Cells;
      var first := Min(buffer.Length - tail, count);
      Copy(buffer, tail, data, 0, first);
      if count > first {
        Copy(buffer, 0, data, first, count - first);
      }
      CopiedCells(buffer[..], tail, count, first, data[..]);
    }

    /** prvReadBytesFromBuffer */
    method ReadBytes(data: array<Byte>, max: nat, available: nat) returns (count: nat)
      requires Bounded() && data != buffer && max <= data.Length && available <= |Contents()|
      modifies data, this`tail
      ensures Bounded() && count == Min(available, max)
      ensures data[..count] == old(Contents())[..count] && data[count..] == old(data[count..])
      ensures Contents() == old(Contents())[count..]
    {
      count := Min(available, max);
      if count > 0 {
        var next := tail;
        CopyOut(data, count);
        CellsSplit(buffer[..], tail, count, |Contents()| - count);
        next := next + count;
        if next >= buffer.Length {
          next := next - buffer.Length;
        }
        tail := next;
      }
    }

    /** The length of a message, as it lies in memory. */
    method WriteLength(n: nat) returns (bytes: array<Byte>)
      requires n < SIZES
      ensures fresh(bytes) && bytes[..] == LengthBytes(n)
    {
      bytes := new Byte[4];
      bytes[0], bytes[1], bytes[2], bytes[3] := n % 256, n / 0x100 % 256, n / 0x1_0000 % 256, n / 0x100_0000;
    }

    /** xStreamBufferSend, once any wait for space is over, with prvWriteMessageToBuffer: a stream takes
        as much as there is space for, a message goes in whole or not at all. */
    method Send(data: array<Byte>, count: nat) returns (sent: nat)
      requires Valid() && data != buffer && 0 < count <= data.Length
      requires isMessage ==> count + 4 < SIZES
      modifies buffer, this`head, this`messages
      ensures Valid() && |old(Contents())| < buffer.Length
      ensures !isMessage ==>
                && sent == Min(count, buffer.Length - 1 - |old(Contents())|)
                && Contents() == old(Contents()) + data[..sent]
      ensures isMessage ==>
                if count + 4 <= buffer.Length - 1 - |old(Contents())| then
                  sent == count && messages == old(messages) + [data[..count]]
                else
                  sent == 0 && messages == old(messages) && Contents() == old(Contents())
    {
      hide LengthBytes;
      var space := SpacesAvailable();
      sent := 0;
      if space == 0 {
      } else if !isMessage {
        sent := Min(count, space);
        WriteBytes(data, sent);
      } else if space >= count + 4 {
        var length := WriteLength(count);
        ghost var was, frame := Contents(), data[..count];
        WriteBytes(length, 4);
        assert length[..4] == LengthBytes(count);
        WriteBytes(data, count);
        sent := count;
        EncodeMore(messages, frame);
        assert Contents() == was + (LengthBytes(count) + frame);
        messages := messages + [frame];
      }
    }

    /** xStreamBufferReceive, once any wait for data is over, with prvReadMessageFromBuffer: a stream
        gives as much as it has, a message comes whole or, when the space offered is too small, stays. */
    method Receive(data: array<Byte>, max: nat) returns (count: nat)
      requires Valid() && data != buffer && max <= data.Length
      modifies data, this`tail, this`messages
      ensures Valid() && count <= max && data[count..] == old(data[count..])
      ensures !isMessage ==>
                && count == Min(|old(Contents())|, max)
                && data[..count] == old(Contents())[..count] && Contents() == old(Contents())[count..]
      ensures isMessage ==>
                if old(messages) != [] && |old(messages)[0]| <= max then
                  data[..count] == old(messages)[0] && messages == old(messages)[1..]
                else
                  count == 0 && messages == old(messages) && Contents() == old(Contents())
    {
      var available := BytesInBuffer();
      if !isMessage {
        count := ReadBytes(data, max, available);
      } else {
        FirstFrame(messages);
        count := 0;
        if available > 4 {
          count := ReceiveMessage(data, max, available);
        }
      }
    }

    /** prvReadMessageFromBuffer for a message buffer */
    method ReceiveMessage(data: array<Byte>, max: nat, available: nat) returns (count: nat)
      requires Valid() && isMessage && messages != [] && data != buffer && max <= data.Length
                 && available == |Contents()|
      modifies data, this`tail, this`messages
      ensures Valid() && count <= max && data[count..] == old(data[count..])
      ensures if |old(messages)[0]| <= max then data[..count] == old(messages)[0] && messages == old(messages)[1..]
              else count == 0 && messages == old(messages) && Contents() == old(Contents())
    {
      hide LengthBytes, FromBytes, Encode;
      FirstFrame(messages);
      var original := tail;
      var length := new Byte[4];
      var _ := ReadBytes(length, 4, available);
      var next := FromBytes(length[0], length[1], length[2], length[3]);
      FirstLength(messages, length[..]);
      if next > max {
        tail := original;
        next := 0;
        count := ReadBytes(data, next, available - 4);
      } else {
        count := ReadBytes(data, next, available - 4);
        messages := messages[1..];
      }
    }

    /** xStreamBufferNextMessageLengthBytes: the tail is moved and put back. */
    method NextMessageLength() returns (n: nat)
      requires Valid()
      modifies this`tail
      ensures Valid() && tail == old(tail) && n == if isMessage && messages != [] then |messages[0]| else 0
    {
      hide LengthBytes, FromBytes, Encode;
      n := 0;
      if isMessage {
        FirstFrame(messages);
        var available := BytesInBuffer();
        if available > 4 {
          var original := tail;
          var length := new Byte[4];
          var _ := ReadBytes(length, 4, available);
          FirstLength(messages, length[..]);
          n := FromBytes(length[0], length[1], length[2], length[3]);
          tail := original;
        } else {
          assert available == 0;
        }
      }
    }
  }

  lemma CopiedCells(buf: seq<Byte>, tail: nat, count: nat, first: nat, data: seq<Byte>)
    requires tail < |buf| && count <= |buf| && count <= |data| && first == Min(|buf| - tail, count)
    requires forall i | 0 <= i < first :: data[i] == buf[tail + i]
    requires forall i | first <= i < count :: data[i] == buf[i - first]
    ensures data[..count] == Cells(buf, tail, count)
  {
  }

  lemma Written(was: seq<Byte>, now: seq<Byte>, tail: nat, n: nat, head: nat, data: seq<Byte>)
    requires |was| == |now| && tail < |was| && n + |data| < |was| && head == Wrap(|was|, tail + n)
    requires forall i | 0 <= i < |was| ::
               now[i] == if head <= i < head + |data| then data[i - head]
                         else if i + |was| < head + |data| then data[i + |was| - head] else was[i]
    ensures Cells(now, tail, n + |data|) == Cells(was, tail, n) + data
  {
    CellsSplit(now, tail, n, |data|);
    CellsFrame(was, now, tail, n);
    assert Cells(now, head, |data|) == data;
  }
}
