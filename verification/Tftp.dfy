/** The receiving end of a TFTP write (tftp.c) against a lock-step sender (RFC 1350, sections 2 and 6) and a
    network that loses, repeats and delays packets. */
module Tftp {
  import opened Wrappers

  const BLOCK := 512

  /** Block numbers have 16 bits. */
  const NUMBERS := 0x1_0000

  // ---------- the file as received ----------

  /** What the block chain of udp_file_g holds: full blocks, then the block being filled. */
  datatype File = File(full: seq<seq<Byte>>, tail: seq<Byte>, lastBlock: nat, totalBytes: nat, totalBlocks: nat,
          ready: bool)

  const NEW := File([], [], 0, 0, 0, false)

  /** The DATA case of parse_tftp_packet */
  function Store(f: File, block: nat, data: seq<Byte>): File {
    if block > f.lastBlock then
      var f' := f.(lastBlock := block, totalBytes := f.totalBytes + |data|, totalBlocks := f.totalBlocks + 1);
      if |data| == BLOCK then f'.(full := f.full + [data], tail := []) else f'.(tail := data, ready := true)
    else f
  }

  function Content(f: File): seq<Byte> { Concat(f.full) + f.tail }

  // ---------- the sender ----------

  /** A file is sent in blocks of 512 bytes; a shorter one, of 0 bytes if need be, ends it. */
  function Split(file: seq<Byte>): (blocks: seq<seq<Byte>>)
    ensures |blocks| == |file| / BLOCK + 1
  {
    if |file| < BLOCK then [file] else [file[..BLOCK]] + Split(file[BLOCK..])
  }

  lemma {:induction false} SplitIs(file: seq<Byte>)
    ensures var blocks := Split(file);
            && (forall i | 0 <= i < |blocks| - 1 :: |blocks[i]| == BLOCK) && |blocks[|blocks| - 1]| < BLOCK
            && Concat(blocks) == file
  {
    if |file| < BLOCK {
      assert ([file])[..0] == [];
      assert Concat([file]) == Concat(([file])[..0]) + file;
    } else {
      SplitIs(file[BLOCK..]);
      ConcatFirst(file[..BLOCK], Split(file[BLOCK..]));
      assert file == file[..BLOCK] + file[BLOCK..];
    }
  }

  /** current is the block the sender is sending: 0 is the write request, one more than there are blocks
      means that all are acknowledged. acks are the numbers of the acknowledgements sent so far. */
  datatype Transfer = Transfer(file: seq<Byte>, current: nat, acks: set<nat>, received: Option<File>) {
    function Blocks(): seq<seq<Byte>> { Split(file) }
  }

  datatype Event =
    | RequestArrives
    | DataArrives(block: nat)
    | AckArrives

  /** Copies of what has been sent may arrive at any time; the sender goes on when the acknowledgement of
      its current block arrives. */
  ghost predicate Enabled(t: Transfer, e: Event) {
    match e
    case RequestArrives => true
    case DataArrives(b) => 1 <= b <= t.current && b <= |t.Blocks()| && t.received.Some?
    case AckArrives => t.current in t.acks && t.current <= |t.Blocks()|
  }

  ghost function Apply(t: Transfer, e: Event): Transfer
    requires Enabled(t, e)
  {
    match e
    case RequestArrives => t.(received := Some(NEW), acks := t.acks + {0})
    case DataArrives(b) => t.(received := Some(Store(t.received.value, b % NUMBERS, t.Blocks()[b - 1])),
        acks := t.acks + {b})
    case AckArrives => t.(current := t.current + 1)
  }

  /** No data has been taken since the last write request. */
  predicate Fresh(t: Transfer) { t.received.None? || t.received.value.lastBlock == 0 }

  /** A run in which write requests arrive only before data has been taken. */
  ghost predicate Reaches(t: Transfer, run: seq<Event>, t': Transfer)
    decreases |run|
  {
    if run == [] then t' == t
    else Enabled(t, run[0]) && (run[0] == RequestArrives ==> Fresh(t)) && Reaches(Apply(t, run[0]), run[1..], t')
  }

  // ---------- what holds as long as requests come in time ----------

  /** The file after the first n blocks. */
  function Stored(blocks: seq<seq<Byte>>, n: nat): File
    requires n <= |blocks|
  {
    if n == 0 then NEW else Store(Stored(blocks, n - 1), n, blocks[n - 1])
  }

  ghost predicate Safe(t: Transfer) {
    |t.Blocks()| < NUMBERS &&
    match t.received
    case None => t.current == 0 && t.acks == {}
    case Some(f) =>
      && f.lastBlock <= |t.Blocks()| && f == Stored(t.Blocks(), f.lastBlock)
      && f.lastBlock <= t.current <= f.lastBlock + 1
      && (t.current > 0 && t.current in t.acks ==> f.lastBlock == t.current)
      && (f.lastBlock > 0 ==> f.lastBlock in t.acks)
      && (forall a | a in t.acks :: a <= t.current)
  }

  lemma {:induction false} StoredIs(blocks: seq<seq<Byte>>, n: nat)
    requires n <= |blocks| && forall i | 0 <= i < |blocks| - 1 :: |blocks[i]| == BLOCK
    requires |blocks| > 0 && |blocks[|blocks| - 1]| < BLOCK
    ensures var f := Stored(blocks, n);
            && f.lastBlock == f.totalBlocks == n && (f.ready <==> n == |blocks|)
            && Content(f) == Concat(blocks[..n]) && f.totalBytes == |Content(f)|
            && (n < |blocks| ==> f.full == blocks[..n] && f.tail == [])
  {
    if n > 0 {
      StoredIs(blocks, n - 1);
      assert blocks[..n][..n - 1] == blocks[..n - 1];
    } else {
      assert blocks[..0] == [];
    }
  }

  lemma DataSafe(t: Transfer, b: nat)
    requires Safe(t) && Enabled(t, DataArrives(b))
    ensures Safe(Apply(t, DataArrives(b)))
  {
    var f, blocks := t.received.value, t.Blocks();
    hide Split;
    if b > f.lastBlock {
      assert b == f.lastBlock + 1 == t.current;
      assert Stored(blocks, b) == Store(Stored(blocks, b - 1), b, blocks[b - 1]);
    }
  }

  lemma StepSafe(t: Transfer, e: Event)
    requires Safe(t) && Enabled(t, e) && (e == RequestArrives ==> Fresh(t))
    ensures Safe(Apply(t, e))
  {
    match e
    case RequestArrives => RequestSafe(t);
    case DataArrives(b) => DataSafe(t, b);
    case AckArrives =>
  }

  lemma RequestSafe(t: Transfer)
    requires Safe(t) && Fresh(t)
    ensures Safe(Apply(t, RequestArrives))
  {
    hide Split;
  }

  lemma {:induction false} RunSafe(t: Transfer, run: seq<Event>, t': Transfer)
    requires Safe(t) && Reaches(t, run, t')
    ensures Safe(t') && t'.file == t.file
    decreases |run|
  {
    hide Safe;
    if run != [] {
      StepSafe(t, run[0]);
      RunSafe(Apply(t, run[0]), run[1..], t');
    }
  }

  /** When no write request arrives late, the chain always holds the beginning of the file, the counts are
      those of what it holds, and it is the whole file once ready is set, which it is when the sender is
      done. */
  lemma HoldsPrefix(file: seq<Byte>, run: seq<Event>, t: Transfer)
    requires |Split(file)| < NUMBERS && Reaches(Transfer(file, 0, {}, None), run, t)
    ensures t.received.Some? ==>
              var f := t.received.value;
              && |Content(f)| <= |file| && Content(f) == file[..|Content(f)|] && f.totalBytes == |Content(f)|
              && f.totalBlocks == f.lastBlock <= |Split(file)|
              && (f.ready ==> Content(f) == file)
              && (t.current == |Split(file)| + 1 ==> f.ready)
    ensures t.current > 0 ==> t.received.Some?
  {
    hide Split;
    RunSafe(Transfer(file, 0, {}, None), run, t);
    if t.received.Some? {
      SplitIs(file);
      var n := t.received.value.lastBlock;
      StoredIs(Split(file), n);
      ConcatPrefix(Split(file), n);
      if n == |Split(file)| {
        assert Split(file)[..n] == Split(file);
      }
    }
  }

  // ---------- late write requests ----------

  /** A finished file is the file sent. */
  ghost predicate Right(t: Transfer) {
    t.received.Some? && t.received.value.ready ==> Content(t.received.value) == t.file
  }

  ghost predicate AlwaysRight(t: Transfer) {
    forall run, t' :: Reaches(t, run, t') ==> Right(t')
  }

  lemma {:induction false} SafeIsRight(t: Transfer)
    requires Safe(t)
    ensures Right(t)
  {
    hide Split;
    if t.received.Some? {
      SplitIs(t.file);
      StoredIs(t.Blocks(), t.received.value.lastBlock);
      assert t.Blocks()[..|t.Blocks()|] == t.Blocks();
    }
  }

  /** With some data lost to a late request, the run to the end leaves a file that is too short. */
  lemma {:induction false} FinishShort(t: Transfer) returns (run: seq<Event>, t': Transfer)
    requires t.received.Some? && 2 <= |t.Blocks()| < NUMBERS
    requires var f, c := t.received.value, Min(t.current, |t.Blocks()|);
             && c >= 2 && f.lastBlock < c && |f.full| < c - 1 && f.tail == [] && |Concat(f.full)| == BLOCK * |f.full|
    ensures Reaches(t, run, t') && !Right(t')
    ensures t'.received.Some? && t'.received.value.ready && |t.Blocks()| in t'.acks
    ensures t'.file == t.file && t'.current == if t.current <= |t.Blocks()| then |t.Blocks()| else t.current
    decreases |t.Blocks()| - Min(t.current, |t.Blocks()|)
  {
    hide Split;
    var blocks, f, c := t.Blocks(), t.received.value, Min(t.current, |t.Blocks()|);
    SplitIs(t.file);
    var t1 := Apply(t, DataArrives(c));
    assert Reaches(t1, [], t1);
    var f1 := t1.received.value;
    if c == |blocks| {
      run, t' := [DataArrives(c)], t1;
      FileLength(t.file);
      assert Content(f1) == Concat(f.full) + blocks[c - 1];
    } else {
      assert f1.full[..|f.full|] == f.full;
      var t2 := Apply(t1, AckArrives);
      run, t' := FinishShort(t2);
      assert ([AckArrives] + run)[1..] == run;
      assert ([DataArrives(c)] + ([AckArrives] + run))[1..] == [AckArrives] + run;
      run := [DataArrives(c)] + ([AckArrives] + run);
    }
  }

  lemma {:induction false} FileLength(file: seq<Byte>)
    ensures var blocks := Split(file); |file| == BLOCK * (|blocks| - 1) + |blocks[|blocks| - 1]|
  {
    if |file| >= BLOCK {
      FileLength(file[BLOCK..]);
    }
  }

  lemma LateRequestShort(t: Transfer) returns (run: seq<Event>, t': Transfer)
    requires Safe(t) && !Fresh(t) && |t.Blocks()| >= 2
    ensures Reaches(Apply(t, RequestArrives), run, t') && !Right(t') && t'.file == t.file
    ensures |t.Blocks()| in t'.acks && |t.Blocks()| <= t'.current <= |t.Blocks()| + 1
  {
    hide Split;
    var t1 := Apply(t, RequestArrives);
    if t.current == t.received.value.lastBlock {
      var t2 := Apply(t1, AckArrives);
      run, t' := FinishShort(t2);
      assert ([AckArrives] + run)[1..] == run;
      run := [AckArrives] + run;
    } else {
      run, t' := FinishShort(t1);
    }
  }

  /** A file of one block survives any repetition. */
  lemma {:induction false} OneBlockRight(t: Transfer, run: seq<Event>, t': Transfer)
    requires |t.Blocks()| == 1 < NUMBERS && Reaches(t, run, t')
    requires t.received.Some? ==> t.received.value == NEW || t.received.value == Store(NEW, 1, t.file)
    ensures Right(t')
    decreases |run|
  {
    hide Split;
    SplitIs(t.file);
    assert t.Blocks()[..0] == [];
    assert Concat(t.Blocks()) == Concat(t.Blocks()[..0]) + t.Blocks()[0];
    if run != [] {
      OneBlockRight(Apply(t, run[0]), run[1..], t');
    }
  }

  /** A sender that has had every block acknowledged has delivered the file. */
  ghost predicate Delivered(t: Transfer) {
    t.current > |t.Blocks()| ==>
      t.received.Some? && t.received.value.ready && Content(t.received.value) == t.file
  }

  ghost predicate AlwaysDelivered(t: Transfer) {
    forall run, t' :: Reaches(t, run, t') ==> Delivered(t')
  }

  lemma SafeIsDelivered(t: Transfer)
    requires Safe(t)
    ensures Delivered(t)
  {
    hide Split;
    SafeIsRight(t);
    if t.received.Some? {
      SplitIs(t.file);
      StoredIs(t.Blocks(), t.received.value.lastBlock);
    }
  }

  lemma {:induction false} ReachesFurther(t: Transfer, run: seq<Event>, t1: Transfer, e: Event)
    requires Reaches(t, run, t1) && Enabled(t1, e) && e != RequestArrives
    ensures Reaches(t, run + [e], Apply(t1, e))
    decreases |run|
  {
    hide Enabled, Apply;
    if run == [] {
      assert ([e])[1..] == [] && Reaches(Apply(t, e), [], Apply(t, e));
    } else {
      ReachesFurther(Apply(t, run[0]), run[1..], t1, e);
      assert (run + [e])[1..] == run[1..] + [e];
    }
  }

  /** After a late request some run has every block acknowledged and the file not delivered: it is too
      short, or, when a single block had all been taken, not there at all. */
  lemma LateRequestLoses(t: Transfer) returns (run: seq<Event>, t': Transfer)
    requires Safe(t) && !Fresh(t)
    ensures Reaches(Apply(t, RequestArrives), run, t') && !Delivered(t')
  {
    hide Split;
    var t1 := Apply(t, RequestArrives);
    if |t.Blocks()| == 1 {
      run, t' := [], t1;
      if t.current == 1 {
        assert Reaches(Apply(t1, AckArrives), [], Apply(t1, AckArrives));
        run, t' := [AckArrives], Apply(t1, AckArrives);
      }
    } else {
      run, t' := LateRequestShort(t);
      if t'.current == |t.Blocks()| {
        ReachesFurther(t1, run, t', AckArrives);
        run, t' := run + [AckArrives], Apply(t', AckArrives);
      }
    }
  }

  /** After a write request has arrived, every continuation in which all blocks are acknowledged has
      delivered the file if and only if no data had been taken before the request. */
  lemma RequestKeepsFileIff(t: Transfer)
    requires Safe(t)
    ensures AlwaysDelivered(Apply(t, RequestArrives)) <==> Fresh(t)
  {
    var t1 := Apply(t, RequestArrives);
    hide Split, Delivered;
    if Fresh(t) {
      RequestSafe(t);
      forall run, t' | Reaches(t1, run, t')
        ensures Delivered(t')
      {
        RunSafe(t1, run, t');
        SafeIsDelivered(t');
      }
    } else {
      var run, t' := LateRequestLoses(t);
      assert Reaches(t1, run, t');
    }
  }

  /** After a write request has arrived, no continuation sets ready for a wrong file if and only if no data
      had been taken before it, or the file is a single block. */
  lemma RequestHarmlessIff(t: Transfer)
    requires Safe(t)
    ensures AlwaysRight(Apply(t, RequestArrives)) <==> Fresh(t) || |t.Blocks()| == 1
  {
    var t1 := Apply(t, RequestArrives);
    hide Split, Right;
    if Fresh(t) {
      RequestSafe(t);
      forall run, t' | Reaches(t1, run, t')
        ensures Right(t')
      {
        RunSafe(t1, run, t');
        SafeIsRight(t');
      }
    } else if |t.Blocks()| == 1 {
      forall run, t' | Reaches(t1, run, t')
        ensures Right(t')
      {
        OneBlockRight(t1, run, t');
      }
    } else {
      var run, t' := LateRequestShort(t);
      assert Reaches(t1, run, t');
    }
  }

  // ---------- the code ----------

  /** block_t; last_block, total_bytes, total_blocks and ready are used in the first block of a file. */
  class Block {
    const buf512: array<Byte>
    var next: Block?
    var bytes: nat
    var lastBlock: nat
    var totalBytes: nat
    var totalBlocks: nat
    var ready: bool

    /** init_buffer_512 */
    constructor ()
      ensures buf512.Length == BLOCK && next == null && bytes == lastBlock == totalBytes == totalBlocks == 0 && !ready
      ensures fresh(buf512)
    {
      buf512 := new Byte[BLOCK];
      next, bytes, lastBlock, totalBytes, totalBlocks, ready := null, 0, 0, 0, 0, false;
    }
  }

  /** The blocks of chain are distinct, with buffers of their own, and linked in order. */
  ghost predicate Linked(chain: seq<Block>)
    reads chain`next
  {
    && chain != []
    && (forall i | 0 <= i < |chain| :: chain[i].buf512.Length == BLOCK)
    && (forall i, j | 0 <= i < j < |chain| :: chain[i] != chain[j] && chain[i].buf512 != chain[j].buf512)
    && (forall i | 0 <= i < |chain| - 1 :: chain[i].next == chain[i + 1]) && chain[|chain| - 1].next == null
  }

  ghost function Buffers(chain: seq<Block>): set<array<Byte>> {
    set b | b in chain :: b.buf512
  }

  /** The first blocks of the chain are full and hold these. */
  ghost predicate Full(chain: seq<Block>, full: seq<seq<Byte>>)
    reads chain`bytes, Buffers(chain)
  {
    |full| <= |chain| && forall i | 0 <= i < |full| :: chain[i].bytes == BLOCK && chain[i].buf512[..] == full[i]
  }

  ghost predicate Holds(block: Block, data: seq<Byte>)
    reads block`bytes, block.buf512
  {
    block.bytes == |data| <= block.buf512.Length && block.buf512[..|data|] == data
  }

  /** All blocks but the last are full; the last one holds the tail. */
  ghost predicate Filled(chain: seq<Block>, f: File)
    reads chain`bytes, Buffers(chain)
  {
    |chain| == |f.full| + 1 && Full(chain, f.full) && Holds(chain[|f.full|], f.tail) && |f.tail| < BLOCK
  }

  ghost predicate Counted(head: Block, f: File)
    reads head
  {
    head.lastBlock == f.lastBlock && head.totalBytes == f.totalBytes && head.totalBlocks == f.totalBlocks
        && head.ready == f.ready
  }

  datatype Reply = Acknowledge(block: nat) | Refuse | NoReply

  /** udp_file_g and udp_current_block_g */
  class Server {
    var file: Block?
    var current: Block?
    ghost var chain: seq<Block>
    ghost var held: File

    ghost predicate Valid()
      reads this, chain, Buffers(chain)
    {
      file != null ==>
        && Linked(chain) && file == chain[0] && current == chain[|chain| - 1]
        && Filled(chain, held) && Counted(chain[0], held)
        && held.totalBytes >= |Content(held)|
    }

    constructor ()
      ensures Valid() && file == null
    {
      file, current, chain, held := null, null, [], NEW;
    }

    /** The UDP_WRITE case of parse_tftp_packet: a new file is begun, whatever there was before. */
    method Write(octet: bool) returns (reply: Reply)
      modifies this
      ensures Valid() && file != null && held == NEW && fresh(chain) && fresh(Buffers(chain))
      ensures reply == if octet then Acknowledge(0) else Refuse
    {
      file := new Block();
      current := file;
      chain, held := [file], NEW;
      reply := if octet then Acknowledge(0) else Refuse;
    }

    /** The UDP_DATA case: every block is acknowledged, one with a higher number than the last is kept. */
    method Data(block: nat, data: seq<Byte>) returns (reply: Reply)
      requires Valid() && file != null && |data| <= BLOCK
      modifies this, chain, Buffers(chain)
      ensures Valid() && file == old(file) && held == Store(old(held), block, data) && reply == Acknowledge(block)
    {
      reply := Acknowledge(block);
      hide Linked, Filled, Content;
      ChainFacts();
      if block > file.lastBlock {
        ghost var f := held;
        StoreGrows(f, block, data);
        held := Store(f, block, data);
        Keep(block, data, f);
      }
    }

    method Keep(block: nat, data: seq<Byte>, ghost f: File)
      requires file != null && chain != [] && file == chain[0] && current == chain[|chain| - 1]
      requires Linked(chain) && Filled(chain, f) && Counted(chain[0], f) && |data| <= BLOCK && block > f.lastBlock
      modifies this`current, this`chain, chain, current.buf512
      ensures chain != [] && file == chain[0] && current == chain[|chain| - 1]
      ensures Linked(chain) && Filled(chain, Store(f, block, data)) && Counted(chain[0], Store(f, block, data))
    {
      hide Linked, Full, Holds;
      Count(block, |data|, f);
      Fill(data, f);
      if |data| == BLOCK {
        Extend(data, f);
      } else {
        Finish(data, f);
      }
    }

    lemma ChainFacts()
      requires Valid() && file != null
      ensures chain != [] && file == chain[0] && current == chain[|chain| - 1] && Linked(chain) && Filled(chain, held)
      ensures current.buf512 in Buffers(chain) && |held.tail| < BLOCK
    {
    }

    method Count(block: nat, n: nat, ghost f: File)
      requires file != null && Linked(chain) && file == chain[0] && Filled(chain, f)
      modifies file`lastBlock, file`totalBytes, file`totalBlocks
      ensures Linked(chain) && Filled(chain, f)
      ensures file.lastBlock == block && file.totalBytes == old(file.totalBytes) + n
                && file.totalBlocks == old(file.totalBlocks) + 1
    {
      file.lastBlock := block;
      file.totalBytes := file.totalBytes + n;
      file.totalBlocks := file.totalBlocks + 1;
    }

    method Finish(data: seq<Byte>, ghost f: File)
      requires file != null && Linked(chain) && file == chain[0] && |chain| == |f.full| + 1
      requires Full(chain, f.full) && Holds(chain[|chain| - 1], data)
      modifies file`ready
      ensures file.ready && Linked(chain) && Full(chain, f.full) && Holds(chain[|chain| - 1], data)
    {
      file.ready := true;
    }

    /** The current block gets the data. */
    method Fill(data: seq<Byte>, ghost f: File)
      requires current != null && Linked(chain) && current == chain[|chain| - 1] && Filled(chain, f) && |data| <= BLOCK
      modifies current`bytes, current.buf512
      ensures Linked(chain) && Full(chain, f.full) && Holds(current, data)
    {
      current.bytes := |data|;
      CopyIn(current.buf512, data);
    }

    /** A full block is followed by a new one. */
    method Extend(data: seq<Byte>, ghost f: File)
      requires current != null && Linked(chain) && current == chain[|chain| - 1] && |chain| == |f.full| + 1
      requires Full(chain, f.full) && Holds(current, data) && |data| == BLOCK
      modifies current`next, this`current, this`chain
      ensures Linked(chain) && chain[0] == old(chain[0]) && current == chain[|chain| - 1]
      ensures |chain| == |f.full| + 2 && Full(chain, f.full + [data]) && Holds(chain[|f.full| + 1], [])
    {
      var block := new Block();
      ghost var was := chain;
      current.next := block;
      current := block;
      chain := chain + [block];
      assert forall i | 0 <= i < |was| :: chain[i] == was[i];
    }

    /** process_file, up to the call of the ELF splitter: the blocks are copied into one buffer, each 512
        bytes behind the one before. */
    method ProcessFile() returns (file': array<Byte>)
      requires Valid() && file != null
      ensures file'.Length == held.totalBytes
      ensures |Content(held)| <= file'.Length && file'[..|Content(held)|] == Content(held)
    {
      hide Content, Linked, Filled;
      ChainFacts();
      ContentLength(held, chain);
      file' := new Byte[file.totalBytes];
      var block, at := file, 0;
      ghost var i := 0;
      assert held.full[..0] == [];
      while block.next != null
        invariant 0 <= i < |chain| && block == chain[i] && at == BLOCK * i && at <= file'.Length
        invariant Linked(chain) && Filled(chain, held) && file'.Length == held.totalBytes
        invariant file'[..at] == Concat(held.full[..i])
        decreases |chain| - i
      {
        NextBlock(held, chain, i);
        CopyBlock(file', at, block, held.full[i]);
        at := at + BLOCK;
        block := block.next;
        i := i + 1;
      }
      LastBlock(held, chain, i);
      ContentIs(held);
      CopyBlock(file', at, block, held.tail);
    }
  }

  method CopyBlock(to: array<Byte>, at: nat, block: Block, ghost data: seq<Byte>)
    requires to != block.buf512 && at + |data| <= to.Length && Holds(block, data)
    modifies to
    ensures to[..at + |data|] == old(to[..at]) + data
  {
    ghost var done := to[..at];
    CopyOut(to, at, block.buf512, block.bytes);
    assert to[..at + |data|] == done + data;
  }

  lemma {:induction false} FullLength(full: seq<seq<Byte>>)
    requires forall i | 0 <= i < |full| :: |full[i]| == BLOCK
    ensures |Concat(full)| == BLOCK * |full|
  {
    if full != [] {
      FullLength(full[..|full| - 1]);
    }
  }

  lemma ContentLength(f: File, chain: seq<Block>)
    requires Linked(chain) && Filled(chain, f)
    ensures |Content(f)| == BLOCK * |f.full| + |f.tail|
  {
    forall i | 0 <= i < |f.full|
      ensures |f.full[i]| == BLOCK
    {
      assert chain[i].buf512[..] == f.full[i];
    }
    FullLength(f.full);
  }

  lemma ContentIs(f: File)
    ensures Content(f) == Concat(f.full) + f.tail
  {
  }

  lemma NextBlock(f: File, chain: seq<Block>, i: nat)
    requires Linked(chain) && Filled(chain, f) && i < |chain| && chain[i].next != null
    ensures i + 1 < |chain| && i < |f.full| && chain[i].next == chain[i + 1]
    ensures |f.full[i]| == BLOCK && Holds(chain[i], f.full[i]) && BLOCK * (i + 1) <= |Content(f)|
    ensures Concat(f.full[..i + 1]) == Concat(f.full[..i]) + f.full[i]
  {
    assert f.full[..i + 1][..i] == f.full[..i];
    ContentLength(f, chain);
    assert i < |chain| - 1 ==> chain[i].next == chain[i + 1];
    assert chain[i].buf512[..BLOCK] == chain[i].buf512[..];
  }

  lemma LastBlock(f: File, chain: seq<Block>, i: nat)
    requires Linked(chain) && Filled(chain, f) && i < |chain| && chain[i].next == null
    ensures i == |f.full| && f.full[..i] == f.full && Holds(chain[i], f.tail)
  {
    forall j: nat | j < |chain| - 1
      ensures chain[j].next != null
    {
      NotLast(chain, j);
    }
  }

  lemma NotLast(chain: seq<Block>, i: nat)
    requires Linked(chain) && i < |chain| - 1
    ensures chain[i].next == chain[i + 1]
  {
  }

  /** memcpy out of a block */
  method CopyOut(to: array<Byte>, at: nat, buf: array<Byte>, n: nat)
    requires to != buf && at + n <= to.Length && n <= buf.Length
    modifies to
    ensures to[..at] == old(to[..at]) && to[at..at + n] == buf[..n]
  {
    for i := 0 to n
      invariant to[..at] == old(to[..at]) && to[at..at + i] == buf[..i]
    {
      to[at + i] := buf[i];
    }
  }

  lemma StoreGrows(f: File, block: nat, data: seq<Byte>)
    requires f.totalBytes >= |Content(f)| && |f.tail| < BLOCK
    ensures Store(f, block, data).totalBytes >= |Content(Store(f, block, data))|
  {
    if |data| == BLOCK {
      assert (f.full + [data])[..|f.full|] == f.full;
    }
  }

  /** memcpy into a block */
  method CopyIn(buf: array<Byte>, data: seq<Byte>)
    requires |data| <= buf.Length
    modifies buf
    ensures buf[..|data|] == data && buf[|data|..] == old(buf[|data|..])
  {
    for i := 0 to |data|
      invariant buf[..i] == data[..i] && buf[|data|..] == old(buf[|data|..])
    {
      buf[i] := data[i];
    }
  }
}
