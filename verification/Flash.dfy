/**
 The transfer of a firmware image into the inactive slot of the flash: what each command
 makes of the transfer, the slot and the record of commits.
 */
module Flash {
  import opened Bytes
  import opened Crc16
  import opened Crc32
  import Crc32Bits
  import opened Prelude

  const BLOCK_SIZE := 2048
  const HEAD_LEN := 24

  // ---------- The transfer ----------

  /** The whole blocks among the bytes accepted, and the last one however short. */
  function Written(size: nat, accepted: seq<Byte>): (n: nat)
    requires |accepted| <= size
    ensures n <= |accepted| < n + BLOCK_SIZE
  {
    if |accepted| == size then size else |accepted| / BLOCK_SIZE * BLOCK_SIZE
  }

  /** How many blocks `n` bytes make. */
  function Blocks(n: nat): nat {
    (n + BLOCK_SIZE - 1) / BLOCK_SIZE
  }

  /** The block that ends the first `n` bytes. */
  function LastBlock(image: seq<Byte>): seq<Byte> {
    if image == [] then [] else image[(Blocks(|image|) - 1) * BLOCK_SIZE..]
  }

  /** A transfer: the size announced, the bytes accepted since, and whether a replay is being ignored. */
  datatype Transfer = Idle | Active(size: nat, accepted: seq<Byte>, ignoring: bool) {
    predicate Valid() {
      Active? ==> size > 0 && |accepted| <= size
    }

    /** What is in the slot. */
    function Image(): seq<Byte>
      requires Active? && Valid()
    {
      accepted[..Written(size, accepted)]
    }

    /** The number of the last block, as a 16-bit counter shows it. */
    function Number(): U16
      requires Active? && Valid()
    {
      Blocks(|Image()|) % 0x1_0000
    }

    function LastCrc(): U16
      requires Active? && Valid()
    {
      if Image() == [] then 0 else Crc(LastBlock(Image()))
    }

    /** The bytes that wait for their block to be whole. */
    function Waiting(): seq<Byte>
      requires Active? && Valid()
    {
      accepted[Written(size, accepted)..]
    }

    /** How much of a data frame is taken. */
    function Room(): nat
      requires Active? && Valid()
    {
      var inImage, inBlock := size - |accepted|, BLOCK_SIZE - |Waiting()|;
      if inImage < inBlock then inImage else inBlock
    }
  }

  /** What the flash does with a write or an erasure: it is done, or leaves the slot in some state. */
  datatype Outcome = Done | Failed(left: seq<Byte>)

  datatype Commit = Commit(head: seq<Byte>, size: nat)

  /** The inactive slot, if there is one, and the images that were made the next to boot. */
  datatype Slot = Slot(size: Option<U32>, flash: seq<Byte>, commits: seq<Commit>) {
    predicate Valid() {
      match size case None => flash == [] case Some(n) => |flash| == n && n % 4 == 0
    }
  }

  datatype State = State(transfer: Transfer, slot: Slot)

  datatype Command =
    | Begin(size: U32, outcome: Outcome)
    | BlockStart(number: U16, crc: U16)
    | Data(bytes: seq<Byte>, outcome: Outcome)
    | End(sum: U32, accepts: bool)
    | Abort

  datatype Reply =
    | Refused | EraseFailed | Started
    | NotStarted | Replay(number: U16, crc: U16) | Expected | Aborted
    | Nothing | BlockWritten(number: U16, crc: U16, written: nat) | WriteFailed(written: nat)
    | NotActive | Mismatch(written: nat) | CommitFailed | Finished
    | Stopped(wasActive: bool)

  /** A failed write or erasure leaves a slot of the same size. */
  predicate IsPossible(c: Command, n: nat) {
    match c
    case Begin(_, o) => o.Failed? ==> |o.left| == n
    case Data(_, o) => o.Failed? ==> |o.left| == n
    case _ => true
  }

  function Erased(n: nat): seq<Byte> {
    seq(n, _ => 0xFF)
  }

  /** A block filled up to whole words. */
  function Filled(block: seq<Byte>): (b: seq<Byte>)
    ensures |b| % 4 == 0 && |block| <= |b| < |block| + 4 && b[..|block|] == block
  {
    block + Erased((4 - |block| % 4) % 4)
  }

  function Patched(flash: seq<Byte>, at: nat, data: seq<Byte>): (f: seq<Byte>)
    requires at + |data| <= |flash|
    ensures |f| == |flash|
  {
    flash[..at] + data + flash[at + |data|..]
  }

  /** The first bytes of the image, over zeros. */
  function HeadOf(block: seq<Byte>, before: seq<Byte>): (head: seq<Byte>)
    requires |before| == HEAD_LEN
    ensures |head| == HEAD_LEN
  {
    if |block| < HEAD_LEN then block + before[|block|..] else block[..HEAD_LEN]
  }

  /** The head kept of an image: that of its first block, and of each one at which the counter starts again. */
  function Head(image: seq<Byte>): (head: seq<Byte>)
    ensures |head| == HEAD_LEN
    decreases |image|
  {
    if image == [] then seq(HEAD_LEN, _ => 0)
    else
      var b := Blocks(|image|) - 1;
      var before := Head(image[..b * BLOCK_SIZE]);
      if b % 0x1_0000 == 0 then HeadOf(LastBlock(image), before) else before
  }

  /** `image_header_ok`. */
  predicate IsBootable(head: seq<Byte>)
    requires |head| == HEAD_LEN
  {
    head[0] == 0xE9 && 1 <= head[1] <= 16 && Unsigned(head[12], head[13]) == 9
  }

  // ---------- The commands ----------

  function Taken(t: Transfer, bytes: seq<Byte>): (n: nat)
    requires t.Valid()
    ensures n <= |bytes|
  {
    if t.Idle? || t.ignoring then 0 else if |bytes| < t.Room() then |bytes| else t.Room()
  }

  /** Bytes that are taken make the block whole, or wait with the others. */
  lemma TakenMore(t: Transfer, bytes: seq<Byte>)
    requires t.Active? && t.Valid() && 0 < |bytes| <= t.Room()
    ensures var more := t.(accepted := t.accepted + bytes);
            && more.Valid() && |t.Image()| % BLOCK_SIZE == 0 && |t.Waiting()| < BLOCK_SIZE
            && more.accepted == t.Image() + (t.Waiting() + bytes)
            && (|bytes| == t.Room() ==>
                  more.Image() == more.accepted && more.Waiting() == [] && |more.Image()| <= |t.Image()| + BLOCK_SIZE)
            && (|bytes| < t.Room() ==> more.Image() == t.Image() && more.Waiting() == t.Waiting() + bytes)
  {
    var more := t.(accepted := t.accepted + bytes);
    var w, v := Written(t.size, t.accepted), Written(t.size, more.accepted);
    assert t.accepted == t.accepted[..w] + t.accepted[w..];
    if |bytes| == t.Room() {
      assert v == |more.accepted|;
    } else {
      assert v == w;
      assert more.accepted[..w] == t.accepted[..w] && more.accepted[w..] == t.accepted[w..] + bytes;
    }
  }

  lemma WordsFit(at: nat, n: nat, limit: nat)
    requires at % 4 == 0 && limit % 4 == 0 && at + n <= limit
    ensures at + n + (4 - n % 4) % 4 <= limit
  {
  }

  lemma BlocksAreWords(at: nat)
    requires at % BLOCK_SIZE == 0
    ensures at % 4 == 0
  {
    assert at == 4 * (BLOCK_SIZE / 4 * (at / BLOCK_SIZE));
  }

  /** A block fits into the slot with the bytes that fill it up, since both end at whole words. */
  lemma BlockFits(at: nat, size: nat, block: seq<Byte>, slot: Slot)
    requires slot.Valid() && at % BLOCK_SIZE == 0 && at + |block| <= size <= |slot.flash|
    ensures at + |Filled(block)| <= |slot.flash|
  {
    BlocksAreWords(at);
    WordsFit(at, |block|, |slot.flash|);
    assert |Filled(block)| == |block| + (4 - |block| % 4) % 4;
  }

  /** The bytes are taken; with the last of a block it is written. */
  function OnData(st: State, bytes: seq<Byte>, outcome: Outcome): (State, Reply)
    requires IsState(st)
  {
    var n := Taken(st.transfer, bytes);
    if n == 0 then (st, Nothing)
    else
      var t := st.transfer;
      TakenMore(t, bytes[..n]);
      var more := t.(accepted := t.accepted + bytes[..n]);
      if more.Waiting() != [] then (st.(transfer := more), Nothing)
      else match outcome
        case Failed(left) => (State(Idle, st.slot.(flash := left)), WriteFailed(0))
        case Done =>
          var block := t.Waiting() + bytes[..n];
          BlockFits(|t.Image()|, t.size, block, st.slot);
          (State(more, st.slot.(flash := Patched(st.slot.flash, |t.Image()|, Filled(block)))),
           BlockWritten(more.Number(), more.LastCrc(), |more.Image()|))
  }

  function OnBegin(st: State, size: U32, outcome: Outcome): (State, Reply) {
    if st.slot.size.None? || size == 0 || size > st.slot.size.value then (st.(transfer := Idle), Refused)
    else match outcome
      case Failed(left) => (State(Idle, st.slot.(flash := left)), EraseFailed)
      case Done => (State(Active(size, [], false), st.slot.(flash := Erased(|st.slot.flash|))), Started)
  }

  function OnBlockStart(t: Transfer, number: U16, crc: U16): (Transfer, Reply)
    requires t.Valid()
  {
    if t.Idle? then (t, NotStarted)
    else if number == t.Number() && t.Number() > 0 && crc == t.LastCrc() then
      (t.(ignoring := true), Replay(number, crc))
    else if number == t.Number() + 1 && t.Waiting() == [] then (t.(ignoring := false), Expected)
    else (Idle, Aborted)
  }

  predicate IsWhole(t: Transfer, sum: U32)
    requires t.Valid()
  {
    t.Active? && |t.accepted| == t.size && Checksum(t.accepted) == sum
  }

  function OnEnd(st: State, sum: U32, accepts: bool): (State, Reply)
    requires st.transfer.Valid()
  {
    var t, slot := st.transfer, st.slot;
    if t.Idle? then (st, NotActive)
    else if !IsWhole(t, sum) then (State(Idle, slot), Mismatch(|t.Image()|))
    else if !IsBootable(Head(t.accepted)) then (State(Idle, slot), CommitFailed)
    else (State(Idle, slot.(commits := slot.commits + [Commit(Head(t.accepted), t.size)])),
          if accepts then Finished else CommitFailed)
  }

  predicate IsState(st: State) {
    st.transfer.Valid() && st.slot.Valid() && (st.transfer.Active? ==> st.transfer.size <= |st.slot.flash|)
  }

  function Next(st: State, c: Command): (State, Reply)
    requires IsState(st)
  {
    match c
    case Begin(size, outcome) => OnBegin(st, size, outcome)
    case BlockStart(number, crc) =>
      var r := OnBlockStart(st.transfer, number, crc);
      (st.(transfer := r.0), r.1)
    case Data(bytes, outcome) => OnData(st, bytes, outcome)
    case End(sum, accepts) => OnEnd(st, sum, accepts)
    case Abort => (st.(transfer := Idle), Stopped(st.transfer.Active?))
  }

  /** What data does that is taken: it waits, or its block is written, or the write fails. */
  lemma DataIs(st: State, bytes: seq<Byte>, outcome: Outcome, n: nat)
    requires IsState(st) && 0 < n == Taken(st.transfer, bytes)
    ensures var t := st.transfer;
            var taken, next := bytes[..n], Next(st, Data(bytes, outcome));
            var more, block := t.(accepted := t.accepted + taken), t.Waiting() + taken;
            && more.Valid() && |t.Image()| % BLOCK_SIZE == 0 && more.accepted == t.Image() + block
            && (n < t.Room() ==> next == (st.(transfer := more), Nothing)
                                 && more.Image() == t.Image() && more.Waiting() == block)
            && (n == t.Room() ==>
                  && |t.Image()| + |Filled(block)| <= |st.slot.flash|
                  && next == match outcome
                             case Failed(left) => (State(Idle, st.slot.(flash := left)), WriteFailed(0))
                             case Done =>
                               (State(more, st.slot.(flash := Patched(st.slot.flash, |t.Image()|, Filled(block)))),
                                BlockWritten(more.Number(), more.LastCrc(), |more.Image()|)))
  {
    TakenMore(st.transfer, bytes[..n]);
    if n == st.transfer.Room() {
      BlockFits(|st.transfer.Image()|, st.transfer.size, st.transfer.Waiting() + bytes[..n], st.slot);
    }
  }

  // ---------- What every command keeps ----------

  /** While a transfer is active the slot holds the blocks accepted so far, and is erased behind them. */
  predicate IsFaithful(st: State) {
    && IsState(st)
    && (st.transfer.Active? ==>
          var image := st.transfer.Image();
          |image| <= |st.slot.flash| && st.slot.flash == image + Erased(|st.slot.flash| - |image|))
  }

  /** A block written where the image ends leaves the longer image, erased behind it. */
  lemma PatchedIsFaithful(flash: seq<Byte>, image: seq<Byte>, block: seq<Byte>)
    requires |image| + |Filled(block)| <= |flash| && flash == image + Erased(|flash| - |image|)
    ensures Patched(flash, |image|, Filled(block)) == image + block + Erased(|flash| - |image| - |block|)
  {
  }

  lemma DataKeeps(st: State, bytes: seq<Byte>, outcome: Outcome)
    requires IsFaithful(st) && IsPossible(Data(bytes, outcome), |st.slot.flash|)
    ensures IsFaithful(OnData(st, bytes, outcome).0)
    ensures |OnData(st, bytes, outcome).0.slot.flash| == |st.slot.flash|
  {
    var n, t := Taken(st.transfer, bytes), st.transfer;
    if n > 0 {
      TakenMore(t, bytes[..n]);
      var block := t.Waiting() + bytes[..n];
      var more := t.(accepted := t.accepted + bytes[..n]);
      hide Written, Filled, Patched;
      if n == t.Room() && outcome.Done? {
        BlockFits(|t.Image()|, t.size, block, st.slot);
        PatchedIsFaithful(st.slot.flash, t.Image(), block);
      }
    }
  }

  lemma NextKeeps(st: State, c: Command)
    requires IsFaithful(st) && IsPossible(c, |st.slot.flash|)
    ensures IsFaithful(Next(st, c).0)
    ensures |Next(st, c).0.slot.flash| == |st.slot.flash| && Next(st, c).0.slot.size == st.slot.size
  {
    if c.Data? {
      DataKeeps(st, c.bytes, c.outcome);
    }
  }

  predicate ArePossible(cs: seq<Command>, n: nat) {
    forall i :: 0 <= i < |cs| ==> IsPossible(cs[i], n)
  }

  /** The state after a run of commands. */
  ghost function After(st: State, cs: seq<Command>): (r: State)
    requires IsFaithful(st) && ArePossible(cs, |st.slot.flash|)
    ensures IsFaithful(r) && |r.slot.flash| == |st.slot.flash| && r.slot.size == st.slot.size
    decreases |cs|
  {
    if cs == [] then st
    else
      NextKeeps(st, cs[0]);
      After(Next(st, cs[0]).0, cs[1..])
  }

  lemma {:induction false} AfterConcat(st: State, a: seq<Command>, b: seq<Command>)
    requires IsFaithful(st) && ArePossible(a, |st.slot.flash|) && ArePossible(b, |st.slot.flash|)
    ensures After(st, a + b) == After(After(st, a), b)
    decreases |a|
  {
    if a == [] {
      assert a + b == b;
    } else {
      NextKeeps(st, a[0]);
      assert (a + b)[1..] == a[1..] + b;
      AfterConcat(Next(st, a[0]).0, a[1..], b);
    }
  }

  lemma {:induction false} HeadIsFirst(image: seq<Byte>)
    requires Blocks(|image|) <= 0x1_0000
    ensures Head(image) == HeadOf(if |image| < HEAD_LEN then image else image[..HEAD_LEN], seq(HEAD_LEN, _ => 0))
    decreases |image|
  {
    if |image| > BLOCK_SIZE {
      var b := Blocks(|image|) - 1;
      HeadIsFirst(image[..b * BLOCK_SIZE]);
      assert image[..b * BLOCK_SIZE][..HEAD_LEN] == image[..HEAD_LEN];
    } else if image != [] {
      assert LastBlock(image) == image;
    }
  }

  /**
   Whatever came before, an image is committed only at an END, and only when the slot holds
   exactly the bytes accepted since the BEGIN, all of them, and with the checksum given; the
   head that is checked is its own, unless the block counter started again.
   */
  lemma CommitIsWhole(st: State, cs: seq<Command>, c: Command)
    requires IsFaithful(st) && ArePossible(cs, |st.slot.flash|) && IsPossible(c, |st.slot.flash|)
    ensures var before := After(st, cs);
            var t, after := before.transfer, Next(before, c).0;
            after.slot.commits != before.slot.commits ==>
              && c.End? && t.Active? && |t.accepted| == t.size <= |before.slot.flash|
              && after.slot.flash == before.slot.flash && before.slot.flash[..t.size] == t.accepted
              && Checksum(before.slot.flash[..t.size]) == c.sum
              && after.slot.commits == before.slot.commits + [Commit(Head(t.accepted), t.size)]
              && (Blocks(t.size) <= 0x1_0000 && t.size >= HEAD_LEN ==>
                    Head(t.accepted) == before.slot.flash[..HEAD_LEN] && IsBootable(before.slot.flash[..HEAD_LEN]))
  {
    var before := After(st, cs);
    var t := before.transfer;
    if c.End? && t.Active? && |t.accepted| == t.size {
      assert t.Image() == t.accepted;
      assert before.slot.flash[..t.size] == t.accepted;
      if Blocks(t.size) <= 0x1_0000 { HeadIsFirst(t.accepted); }
      assert t.size >= HEAD_LEN ==> before.slot.flash[..HEAD_LEN] == t.accepted[..HEAD_LEN];
    }
    hide After, Head, Checksum, Written;
  }

  /**
   An image that arrives with changes within thirty-two consecutive bits of the one that END
   names is never committed, whatever came before.
   */
  lemma DamagedIsNotCommitted(st: State, cs: seq<Command>, image: seq<Byte>, k: nat, accepts: bool)
    requires IsFaithful(st) && ArePossible(cs, |st.slot.flash|)
    requires var t := After(st, cs).transfer;
             t.Active? && t.accepted != image && Crc32Bits.IsLowBurst(t.accepted, image, k)
    ensures IsState(After(st, cs))
    ensures var before := After(st, cs);
            var after := Next(before, End(Checksum(image), accepts));
            && after.0.slot == before.slot && after.0.transfer == Idle && after.1.Mismatch?
  {
    assert IsState(After(st, cs));
    hide *;
    Crc32Bits.LowBurstIsDetected(After(st, cs).transfer.accepted, image, k);
    WrongSumIsMismatch(After(st, cs), Checksum(image), accepts);
  }

  lemma WrongSumIsMismatch(st: State, sum: U32, accepts: bool)
    requires IsState(st) && st.transfer.Active? && Checksum(st.transfer.accepted) != sum
    ensures var after := Next(st, End(sum, accepts));
            after.0.slot == st.slot && after.0.transfer == Idle && after.1.Mismatch?
  {
    hide Checksum, Written;
  }

  // ---------- Replays ----------

  predicate AreData(cs: seq<Command>) {
    forall i :: 0 <= i < |cs| ==> cs[i].Data?
  }

  lemma {:induction false} IgnoredData(st: State, cs: seq<Command>)
    requires IsFaithful(st) && st.transfer.Active? && st.transfer.ignoring
    requires AreData(cs) && ArePossible(cs, |st.slot.flash|)
    ensures After(st, cs) == st
    decreases |cs|
  {
    if cs != [] { IgnoredData(st, cs[1..]); }
  }

  /** A replay of the last block leaves no trace: what follows it is as if it had not been sent. */
  lemma ReplayChangesNothing(st: State, data: seq<Command>, number: U16, crc: U16)
    requires IsFaithful(st) && st.transfer.Active? && st.transfer.Number() > 0
    requires AreData(data) && ArePossible(data, |st.slot.flash|)
    ensures var again := BlockStart(st.transfer.Number(), st.transfer.LastCrc());
            var next := BlockStart(number, crc);
            After(st, [again] + data + [next]) == After(st, [next])
  {
    var again := BlockStart(st.transfer.Number(), st.transfer.LastCrc());
    var next := BlockStart(number, crc);
    var ignoring := st.(transfer := st.transfer.(ignoring := true));
    assert Next(st, again).0 == ignoring;
    IgnoredData(ignoring, data);
    AfterConcat(ignoring, data, [next]);
    assert [again] + data + [next] == [again] + (data + [next]);
    assert ([again] + (data + [next]))[1..] == data + [next];
    assert Next(ignoring, next).0 == Next(st, next).0;
    assert [next][1..] == [];
    assert After(ignoring, [next]) == Next(ignoring, next).0;
  }

  // ---------- One block ----------

  /** The data of some frames, one after the other. */
  function DataOf(cs: seq<Command>): seq<Byte>
    requires AreData(cs)
  {
    if cs == [] then [] else cs[0].bytes + DataOf(cs[1..])
  }

  predicate AllWritten(cs: seq<Command>) {
    forall i :: 0 <= i < |cs| ==> cs[i].Data? && cs[i].outcome == Done
  }

  /** Frames that fit into the block are all taken. */
  lemma {:induction false} FeedBlock(st: State, cs: seq<Command>)
    requires IsFaithful(st) && st.transfer.Active? && !st.transfer.ignoring
    requires AllWritten(cs) && |DataOf(cs)| <= st.transfer.Room()
    ensures After(st, cs).transfer == st.transfer.(accepted := st.transfer.accepted + DataOf(cs))
    decreases |cs|
  {
    var t := st.transfer;
    if cs == [] {
      ConcatNil(t.accepted);
    } else {
      var bytes, rest := cs[0].bytes, cs[1..];
      var next := Next(st, cs[0]).0;
      NextKeeps(st, cs[0]);
      Associate(t.accepted, bytes, DataOf(rest));
      FeedOne(st, bytes);
      if DataOf(rest) == [] {
        FeedNothing(next, rest);
      } else {
        FeedBlock(next, rest);
      }
    }
  }

  lemma FeedOne(st: State, bytes: seq<Byte>)
    requires IsFaithful(st) && st.transfer.Active? && !st.transfer.ignoring && |bytes| <= st.transfer.Room()
    ensures var t, next := st.transfer, Next(st, Data(bytes, Done)).0;
            && next.transfer == t.(accepted := t.accepted + bytes)
            && (|bytes| < t.Room() ==> next.transfer.Valid() && next.transfer.Room() == t.Room() - |bytes|)
  {
    assert bytes[..|bytes|] == bytes;
    if bytes == [] {
      ConcatNil(st.transfer.accepted);
    } else {
      TakenMore(st.transfer, bytes);
    }
  }

  lemma {:induction false} FeedNothing(st: State, cs: seq<Command>)
    requires IsFaithful(st) && AllWritten(cs) && DataOf(cs) == []
    ensures After(st, cs) == st
    decreases |cs|
  {
    if cs != [] { FeedNothing(st, cs[1..]); }
  }

  /** The transfer between two blocks, with the next one to come. */
  predicate IsBetween(t: Transfer) {
    t.Active? && t.Valid() && t.Waiting() == [] && |t.accepted| < t.size && t.Number() < 0xFFFF
  }

  lemma BlockIsLast(t: Transfer, block: seq<Byte>)
    requires IsBetween(t) && |block| == t.Room() && 0 < |block|
    ensures var more := t.(accepted := t.accepted + block);
            && more.Valid() && more.Waiting() == [] && more.Image() == more.accepted
            && more.Number() == t.Number() + 1 && more.LastCrc() == Crc(block)
  {
    TakenMore(t, block);
    var more := t.accepted + block;
    assert t.Image() == t.accepted;
    BlockCount(|t.accepted|, |block|);
    assert LastBlock(more) == block;
    hide Crc;
  }

  lemma BlockCount(at: nat, n: nat)
    requires at % BLOCK_SIZE == 0 && 0 < n <= BLOCK_SIZE
    ensures Blocks(at + n) == Blocks(at) + 1 && (Blocks(at + n) - 1) * BLOCK_SIZE == at
    ensures Blocks(at) % 0x1_0000 < 0xFFFF ==> Blocks(at + n) % 0x1_0000 == Blocks(at) % 0x1_0000 + 1
  {
  }

  /** The announcement of a block and the frames with its data, as they arrive. */
  function Attempt(number: U16, crc: U16, data: seq<Command>): seq<Command> {
    [BlockStart(number, crc)] + data
  }

  lemma AfterAttempt(st: State, number: U16, crc: U16, data: seq<Command>)
    requires IsFaithful(st) && ArePossible(data, |st.slot.flash|)
    ensures After(st, Attempt(number, crc, data)) == After(Next(st, BlockStart(number, crc)).0, data)
  {
    assert Attempt(number, crc, data)[1..] == data;
  }

  /** What one attempt at a block leaves when it loses or changes bytes, but adds none. */
  lemma AttemptTakes(st: State, crc: U16, data: seq<Command>)
    requires IsFaithful(st) && IsBetween(st.transfer)
    requires AllWritten(data) && |DataOf(data)| <= st.transfer.Room()
    ensures var t := st.transfer;
            After(st, Attempt(t.Number() + 1, crc, data)).transfer
            == t.(accepted := t.accepted + DataOf(data), ignoring := false)
  {
    var t := st.transfer;
    AfterAttempt(st, t.Number() + 1, crc, data);
    var next := Next(st, BlockStart(t.Number() + 1, crc)).0;
    assert next.transfer == t.(ignoring := false);
    hide After;
    FeedBlock(next, data);
  }

  /**
   A block that is sent again is accepted exactly when nothing of the first attempt arrived,
   or all of it did, unchanged as far as its checksum tells; otherwise the transfer is
   abandoned.
   */
  lemma ResendExactly(st: State, crc: U16, data: seq<Command>)
    requires IsFaithful(st) && IsBetween(st.transfer)
    requires AllWritten(data) && |DataOf(data)| <= st.transfer.Room()
    ensures var t, arrived := st.transfer, DataOf(data);
            var number := t.Number() + 1;
            var reply := Next(After(st, Attempt(number, crc, data)), BlockStart(number, crc)).1;
            && (reply == Expected <==> arrived == [])
            && (reply == Replay(number, crc) <==> |arrived| == t.Room() && Crc(arrived) == crc)
            && (reply == Aborted <==> arrived != [] && !(|arrived| == t.Room() && Crc(arrived) == crc))
  {
    var t, arrived := st.transfer, DataOf(data);
    AttemptTakes(st, crc, data);
    if arrived == [] {
      ConcatNil(t.accepted);
    } else {
      TakenMore(t, arrived);
      if |arrived| == t.Room() { BlockIsLast(t, arrived); }
    }
    hide After, Crc, Written;
  }

  /** Half a block of sixteen bytes arrives: sending the block again abandons the transfer. */
  lemma HalfBlockAborts(st: State, crc: U16)
    requires IsFaithful(st) && st.transfer == Active(16, [], false)
    ensures var half := Data([1, 2, 3, 4, 5, 6, 7, 8], Done);
            && ArePossible(Attempt(1, crc, [half]), |st.slot.flash|)
            && Next(After(st, Attempt(1, crc, [half])), BlockStart(1, crc)).1 == Aborted
  {
    var half := Data([1, 2, 3, 4, 5, 6, 7, 8], Done);
    OneFrame(half);
    FreshBlock(st.transfer, 16);
    hide *;
    ResendExactly(st, crc, [half]);
  }

  lemma OneFrame(c: Command)
    requires c.Data? && c.outcome == Done
    ensures AllWritten([c]) && DataOf([c]) == c.bytes && forall n :: ArePossible([c], n)
  {
    assert [c][1..] == [];
  }

  lemma FreshBlock(t: Transfer, size: nat)
    requires t == Active(size, [], false) && 0 < size <= BLOCK_SIZE
    ensures IsBetween(t) && t.Number() == 0 && t.Room() == size
  {
  }

  // ---------- A whole image ----------

  const FRAME_SIZE := 8

  /** The frames that carry a block. */
  function Frames(block: seq<Byte>): (cs: seq<Command>)
    ensures AllWritten(cs)
    decreases |block|
  {
    if |block| <= FRAME_SIZE then if block == [] then [] else [Data(block, Done)]
    else [Data(block[..FRAME_SIZE], Done)] + Frames(block[FRAME_SIZE..])
  }

  lemma {:induction false} FramesCarry(block: seq<Byte>)
    ensures DataOf(Frames(block)) == block
    decreases |block|
  {
    if |block| > FRAME_SIZE {
      FramesCarry(block[FRAME_SIZE..]);
      assert Frames(block)[1..] == Frames(block[FRAME_SIZE..]);
    }
  }

  /** Block `k` of an image, counted from one. */
  function BlockOf(image: seq<Byte>, k: nat): seq<Byte>
    requires 0 < k <= Blocks(|image|)
  {
    image[(k - 1) * BLOCK_SIZE..if k * BLOCK_SIZE < |image| then k * BLOCK_SIZE else |image|]
  }

  function SendBlock(number: U16, block: seq<Byte>): seq<Command> {
    Attempt(number, Crc(block), Frames(block))
  }

  function Repeated(cs: seq<Command>, n: nat): seq<Command> {
    if n == 0 then [] else Repeated(cs, n - 1) + cs
  }

  /** The first `k` blocks, each sent once and then again as often as its acknowledgement gets lost. */
  function Session(image: seq<Byte>, again: seq<nat>, k: nat): seq<Command>
    requires k <= Blocks(|image|) < 0x1_0000 && |again| == Blocks(|image|)
  {
    if k == 0 then []
    else
      var block := SendBlock(k, BlockOf(image, k));
      Session(image, again, k - 1) + (block + Repeated(block, again[k - 1]))
  }

  lemma {:induction false} SessionIsPossible(image: seq<Byte>, again: seq<nat>, k: nat, n: nat)
    requires k <= Blocks(|image|) < 0x1_0000 && |again| == Blocks(|image|)
    ensures ArePossible(Session(image, again, k), n)
    decreases k
  {
    if k > 0 {
      SessionIsPossible(image, again, k - 1, n);
      RepeatedIsPossible(SendBlock(k, BlockOf(image, k)), again[k - 1], n);
    }
  }

  lemma {:induction false} RepeatedIsPossible(cs: seq<Command>, k: nat, n: nat)
    requires ArePossible(cs, n)
    ensures ArePossible(Repeated(cs, k), n)
  {
    if k > 0 { RepeatedIsPossible(cs, k - 1, n); }
  }

  /** What a transfer has become when data may be ignored as well. */
  ghost predicate IsResent(st: State, next: State) {
    st.transfer.Active? && (next == st || next == st.(transfer := st.transfer.(ignoring := true)))
  }

  lemma ResentOnce(st: State, before: State, block: seq<Byte>)
    requires IsFaithful(st) && IsFaithful(before) && IsResent(st, before) && st.transfer.Number() > 0
    requires st.transfer.LastCrc() == Crc(block)
    ensures After(before, SendBlock(st.transfer.Number(), block)) == st.(transfer := st.transfer.(ignoring := true))
  {
    AfterAttempt(before, st.transfer.Number(), Crc(block), Frames(block));
    var ignoring := st.(transfer := st.transfer.(ignoring := true));
    assert Next(before, BlockStart(st.transfer.Number(), Crc(block))).0 == ignoring;
    hide After, Crc, Frames;
    IgnoredData(ignoring, Frames(block));
  }

  /** Sending the block that was just accepted any number of times changes nothing but that data is ignored. */
  lemma {:induction false} ResendIgnored(st: State, block: seq<Byte>, n: nat)
    requires IsFaithful(st) && st.transfer.Active? && st.transfer.Number() > 0
    requires st.transfer.LastCrc() == Crc(block)
    ensures var cs := Repeated(SendBlock(st.transfer.Number(), block), n);
            ArePossible(cs, |st.slot.flash|) && IsResent(st, After(st, cs))
    decreases n
  {
    var one := SendBlock(st.transfer.Number(), block);
    RepeatedIsPossible(one, n, |st.slot.flash|);
    if n > 0 {
      ResendIgnored(st, block, n - 1);
      AfterConcat(st, Repeated(one, n - 1), one);
      ResentOnce(st, After(st, Repeated(one, n - 1)), block);
    }
    hide Crc, Frames, SendBlock;
  }

  /** The transfer holds the first `k` blocks of the image. */
  ghost predicate HoldsBlocks(t: Transfer, image: seq<Byte>, k: nat) {
    && t.Active? && t.Valid() && t.size == |image| && k <= Blocks(|image|)
    && t.accepted == image[..if k * BLOCK_SIZE < |image| then k * BLOCK_SIZE else |image|]
  }

  lemma BlockIsNext(t: Transfer, image: seq<Byte>, k: nat)
    requires HoldsBlocks(t, image, k) && k < Blocks(|image|) < 0x1_0000
    ensures IsBetween(t) && t.Number() == k && 0 < |BlockOf(image, k + 1)| == t.Room()
    ensures HoldsBlocks(t.(accepted := t.accepted + BlockOf(image, k + 1)), image, k + 1)
  {
    BlockBounds(|image|, k);
    hide Blocks;
  }

  lemma BlockBounds(n: nat, k: nat)
    requires k < Blocks(n)
    ensures k * BLOCK_SIZE < n && Blocks(k * BLOCK_SIZE) == k
    ensures k * BLOCK_SIZE / BLOCK_SIZE == k && (k + 1) * BLOCK_SIZE == k * BLOCK_SIZE + BLOCK_SIZE
  {
  }

  lemma {:induction false} NoCommit(st: State, cs: seq<Command>)
    requires IsFaithful(st) && ArePossible(cs, |st.slot.flash|)
    requires forall i :: 0 <= i < |cs| ==> cs[i].BlockStart? || cs[i].Data?
    ensures After(st, cs).slot.commits == st.slot.commits
    decreases |cs|
  {
    if cs != [] {
      NextKeeps(st, cs[0]);
      NoCommit(Next(st, cs[0]).0, cs[1..]);
    }
  }

  lemma SendIs(number: U16, block: seq<Byte>)
    ensures SendBlock(number, block) == Attempt(number, Crc(block), Frames(block))
    ensures DataOf(Frames(block)) == block
  {
    FramesCarry(block);
    hide Crc;
  }

  /** A block that arrives whole is accepted. */
  lemma BlockArrives(st: State, block: seq<Byte>, number: U16)
    requires IsFaithful(st) && IsBetween(st.transfer) && 0 < |block| == st.transfer.Room()
    requires number == st.transfer.Number() + 1
    ensures var t, one := st.transfer, SendBlock(number, block);
            && ArePossible(one, |st.slot.flash|)
            && After(st, one).transfer == t.(accepted := t.accepted + block, ignoring := false)
            && After(st, one).slot.commits == st.slot.commits
  {
    hide *;
    SendIs(number, block);
    FramesAreData(number, Crc(block), block);
    AttemptTakes(st, Crc(block), Frames(block));
    NoCommit(st, Attempt(number, Crc(block), Frames(block)));
  }

  lemma BlockSentOnce(st: State, image: seq<Byte>, k: nat, block: seq<Byte>)
    requires IsFaithful(st) && HoldsBlocks(st.transfer, image, k) && k < Blocks(|image|) < 0x1_0000
    requires block == BlockOf(image, k + 1)
    ensures ArePossible(SendBlock(k + 1, block), |st.slot.flash|)
    ensures var next := After(st, SendBlock(k + 1, block));
            && HoldsBlocks(next.transfer, image, k + 1) && next.slot.commits == st.slot.commits
            && next.transfer.Number() == k + 1 && next.transfer.LastCrc() == Crc(block)
  {
    var t := st.transfer.(ignoring := false);
    Listening(st.transfer, image, k);
    hide *;
    BlockIsNext(st.transfer, image, k);
    BlockIsNext(t, image, k);
    BlockArrives(st, block, k + 1);
    BlockIsLast(t, block);
  }

  lemma Listening(t: Transfer, image: seq<Byte>, k: nat)
    requires HoldsBlocks(t, image, k)
    ensures var listening := t.(ignoring := false);
            && HoldsBlocks(listening, image, k) && listening.Number() == t.Number() && listening.Room() == t.Room()
  {
  }

  lemma FramesAreData(number: U16, crc: U16, block: seq<Byte>)
    ensures var cs := Attempt(number, crc, Frames(block));
            && (forall i :: 0 <= i < |cs| ==> cs[i].BlockStart? || cs[i].Data?) && forall n :: ArePossible(cs, n)
    ensures AllWritten(Frames(block)) && forall n :: ArePossible(Frames(block), n)
  {
  }

  lemma BlockSent(st: State, image: seq<Byte>, k: nat, n: nat)
    requires IsFaithful(st) && HoldsBlocks(st.transfer, image, k) && k < Blocks(|image|) < 0x1_0000
    ensures var one := SendBlock(k + 1, BlockOf(image, k + 1));
            && ArePossible(one + Repeated(one, n), |st.slot.flash|)
            && HoldsBlocks(After(st, one + Repeated(one, n)).transfer, image, k + 1)
            && After(st, one + Repeated(one, n)).slot.commits == st.slot.commits
  {
    hide After, Crc, BlockOf, SendBlock, Blocks, Written, Repeated;
    var block := BlockOf(image, k + 1);
    BlockSentOnce(st, image, k, block);
    var one := SendBlock(k + 1, block);
    RepeatedIsPossible(one, n, |st.slot.flash|);
    AfterConcat(st, one, Repeated(one, n));
    ResendIgnored(After(st, one), block, n);
  }

  lemma NothingSent(st: State, image: seq<Byte>)
    requires IsFaithful(st) && image != [] && st.transfer == Active(|image|, [], false)
    ensures ArePossible([], |st.slot.flash|) && After(st, []) == st && HoldsBlocks(st.transfer, image, 0)
  {
  }

  lemma {:induction false} SessionSent(st: State, image: seq<Byte>, again: seq<nat>, k: nat)
    requires IsFaithful(st) && image != [] && st.transfer == Active(|image|, [], false)
    requires k <= Blocks(|image|) < 0x1_0000 && |again| == Blocks(|image|)
    ensures ArePossible(Session(image, again, k), |st.slot.flash|)
    ensures HoldsBlocks(After(st, Session(image, again, k)).transfer, image, k)
    ensures After(st, Session(image, again, k)).slot.commits == st.slot.commits
    decreases k
  {
    hide IsFaithful, HoldsBlocks, BlockOf, SendBlock, Blocks, Repeated, After, ArePossible;
    if k == 0 {
      NothingSent(st, image);
    } else {
      SessionSent(st, image, again, k - 1);
      var before := After(st, Session(image, again, k - 1));
      BlockSent(before, image, k - 1, again[k - 1]);
      var block := SendBlock(k, BlockOf(image, k));
      BothPossible(Session(image, again, k - 1), block + Repeated(block, again[k - 1]), |st.slot.flash|);
      AfterConcat(st, Session(image, again, k - 1), block + Repeated(block, again[k - 1]));
    }
  }

  lemma BothPossible(a: seq<Command>, b: seq<Command>, n: nat)
    requires ArePossible(a, n) && ArePossible(b, n)
    ensures ArePossible(a + b, n)
  {
  }

  /** A whole session: the announcement, the blocks, and the checksum of the image. */
  function Upload(image: seq<Byte>, again: seq<nat>, accepts: bool): seq<Command>
    requires 0 < Blocks(|image|) < 0x1_0000 && |again| == Blocks(|image|)
  {
    [Begin(|image|, Done)] + Session(image, again, Blocks(|image|)) + [End(Checksum(image), accepts)]
  }

  /**
   An image that fits is delivered, however often its blocks are sent again because their
   acknowledgements got lost, and whatever transfer came before: the slot holds it over
   erased flash, and it is committed if its head is that of an image.
   */
  lemma UploadDelivers(st: State, image: seq<Byte>, again: seq<nat>, accepts: bool)
    requires IsFaithful(st) && st.slot.size.Some? && |image| <= st.slot.size.value
    requires 0 < Blocks(|image|) < 0x1_0000 && |again| == Blocks(|image|)
    ensures var cs, flash := Upload(image, again, accepts), st.slot.flash;
            && ArePossible(cs, |flash|)
            && After(st, cs).transfer == Idle
            && After(st, cs).slot.flash == image + Erased(|flash| - |image|)
            && After(st, cs).slot.commits
               == st.slot.commits + if IsBootable(Head(image)) then [Commit(Head(image), |image|)] else []
  {
    var blocks := Blocks(|image|);
    var middle := Session(image, again, blocks);
    var begun := Next(st, Begin(|image|, Done)).0;
    NextKeeps(st, Begin(|image|, Done));
    SessionSent(begun, image, again, blocks);
    var whole := After(begun, middle);
    WholeImage(whole.transfer, image);
    var end := End(Checksum(image), accepts);
    UploadSteps(st, Begin(|image|, Done), middle, end);
    hide After, Session, Head, Checksum, Written;
  }

  lemma WholeImage(t: Transfer, image: seq<Byte>)
    requires image != [] && HoldsBlocks(t, image, Blocks(|image|))
    ensures t.accepted == image && t.Image() == image && IsWhole(t, Checksum(image))
  {
  }

  lemma UploadSteps(st: State, begin: Command, middle: seq<Command>, end: Command)
    requires IsFaithful(st) && IsPossible(begin, |st.slot.flash|) && IsPossible(end, |st.slot.flash|)
    requires ArePossible(middle, |st.slot.flash|)
    ensures IsFaithful(Next(st, begin).0) && |Next(st, begin).0.slot.flash| == |st.slot.flash|
    ensures ArePossible([begin] + middle + [end], |st.slot.flash|)
    ensures After(st, [begin] + middle + [end]) == Next(After(Next(st, begin).0, middle), end).0
  {
    NextKeeps(st, begin);
    var begun := Next(st, begin).0;
    assert [begin] + middle + [end] == [begin] + (middle + [end]);
    assert ([begin] + (middle + [end]))[1..] == middle + [end];
    AfterConcat(begun, middle, [end]);
    var last := After(begun, middle);
    NextKeeps(last, end);
    assert [end][1..] == [];
    assert After(last, [end]) == Next(last, end).0;
  }
}
