/** The receiver of firmware images, with its block buffer and its running checksums. */
module FlashReceiver {
  import opened Bytes
  import opened Crc16
  import opened Crc32
  import opened Flash
  import opened Prelude

  /** The flash behind the receiver; how each operation ends is up to it. */
  class FlashSink {
    var slot: Slot

    constructor (slot: Slot)
      ensures this.slot == slot
    {
      this.slot := slot;
    }

    method EraseSlot(outcome: Outcome) returns (ok: bool)
      modifies this
      ensures ok == outcome.Done?
      ensures slot == old(slot).(flash := if ok then Erased(|old(slot).flash|) else outcome.left)
    {
      slot := slot.(flash := if outcome.Done? then Erased(|slot.flash|) else outcome.left);
      ok := outcome.Done?;
    }

    method Write(offset: nat, data: seq<Byte>, outcome: Outcome) returns (ok: bool)
      requires offset + |data| <= |slot.flash| && offset % 4 == 0 && |data| % 4 == 0
      modifies this
      ensures ok == outcome.Done?
      ensures slot == old(slot).(flash := if ok then Patched(old(slot).flash, offset, data) else outcome.left)
    {
      slot := slot.(flash := if outcome.Done? then Patched(slot.flash, offset, data) else outcome.left);
      ok := outcome.Done?;
    }

    method CommitImage(head: seq<Byte>, size: nat, accepts: bool) returns (ok: bool)
      modifies this
      ensures ok == accepts && slot == old(slot).(commits := old(slot).commits + [Commit(head, size)])
    {
      slot := slot.(commits := slot.commits + [Commit(head, size)]);
      ok := accepts;
    }
  }

  lemma HeadMore(image: seq<Byte>, block: seq<Byte>)
    requires |image| % BLOCK_SIZE == 0 && 0 < |block| <= BLOCK_SIZE
    ensures Head(image + block) ==
            if Blocks(|image|) % 0x1_0000 == 0 then HeadOf(block, Head(image)) else Head(image)
    ensures LastBlock(image + block) == block && Blocks(|image + block|) == Blocks(|image|) + 1
  {
    BlockCount(|image|, |block|);
    assert (image + block)[..|image|] == image;
    assert LastBlock(image + block) == block;
  }

  lemma NextWord(n: nat, padded: nat)
    requires padded == (n + 3) / 4 * 4
    ensures padded == n + (4 - n % 4) % 4
    ensures n <= BLOCK_SIZE ==> padded <= BLOCK_SIZE
  {
  }

  lemma NothingYet(t: Transfer)
    requires t.Active? && t.size > 0 && t.accepted == []
    ensures t.Valid() && t.Image() == [] && t.Waiting() == [] && t.Number() == 0 && t.LastCrc() == 0
    ensures Head([]) == seq(HEAD_LEN, _ => 0) && Register([]) == ALL_ONES
  {
  }

  lemma WholeExactly(t: Transfer)
    requires t.Active? && t.Valid()
    ensures |t.accepted| == t.size <==> t.Waiting() == [] && |t.Image()| == t.size
    ensures |t.accepted| == t.size ==> t.Image() == t.accepted
  {
  }

  lemma RoomFilled(t: Transfer, bytes: seq<Byte>)
    requires t.Active? && t.Valid() && 0 < |bytes| <= t.Room()
    ensures |t.Waiting() + bytes| <= BLOCK_SIZE && |t.accepted + bytes| <= t.size
    ensures |bytes| == t.Room() ==> |t.accepted + bytes| == t.size || |t.Waiting() + bytes| == BLOCK_SIZE
    ensures |bytes| < t.Room() ==> |t.accepted + bytes| < t.size && |t.Waiting() + bytes| < BLOCK_SIZE
    ensures t.Number() == Blocks(|t.Image()|) % 0x1_0000
  {
  }

  lemma RoomLeft(t: Transfer)
    requires t.Active? && t.Valid()
    ensures |t.accepted| == |t.Image()| + |t.Waiting()| && |t.Waiting()| < BLOCK_SIZE
    ensures var inImage, inBlock := t.size - |t.Image()| - |t.Waiting()|, BLOCK_SIZE - |t.Waiting()|;
            t.Room() == if inImage < inBlock then inImage else inBlock
  {
  }

  lemma SameBehind(t: Transfer, more: Transfer)
    requires t.Active? && t.Valid() && more.Active? && more.Valid()
    ensures more.Image() == t.Image() ==> more.Number() == t.Number() && more.LastCrc() == t.LastCrc()
  {
  }

  /** Once its last block is whole, all that was accepted is written. */
  lemma WholeNow(t: Transfer, image: seq<Byte>, whole: seq<Byte>)
    requires t.Active? && t.Valid() && t.accepted == image + whole
    requires |image| % BLOCK_SIZE == 0 && 0 < |whole| <= BLOCK_SIZE
    requires |t.accepted| == t.size || |whole| == BLOCK_SIZE
    ensures t.Image() == t.accepted && t.Waiting() == []
    ensures t.Number() == (Blocks(|image|) % 0x1_0000 + 1) % 0x1_0000 && t.LastCrc() == Crc(whole)
  {
    hide Crc, Head, Blocks, Written, LastBlock;
    HeadMore(image, whole);
    OneMore(|image|);
    AllWhole(t.size, t.accepted);
    NextCount(Blocks(|image|));
    assert t.accepted[..|t.accepted|] == t.accepted && t.accepted[|t.accepted|..] == [];
  }

  lemma OneMore(n: nat)
    requires n % BLOCK_SIZE == 0
    ensures (n + BLOCK_SIZE) % BLOCK_SIZE == 0
  {
  }

  lemma AllWhole(size: nat, accepted: seq<Byte>)
    requires |accepted| <= size && (|accepted| == size || |accepted| % BLOCK_SIZE == 0)
    ensures Written(size, accepted) == |accepted|
  {
  }

  lemma NextCount(n: nat)
    ensures (n + 1) % 0x1_0000 == (n % 0x1_0000 + 1) % 0x1_0000
  {
  }

  /** `FlashReceiver`; `accepted` remembers every byte taken since the transfer began. */
  class FlashReceiver {
    var active: bool
    var imageSize: U32
    var bytesWritten: nat
    var blockNumber: U16
    var lastBlockCrc16: U16
    var replayIgnored: bool
    const block: array<Byte>
    var blockLen: nat
    var imageCrc: U32
    const head: array<Byte>
    ghost var accepted: seq<Byte>

    ghost function Current(): Transfer
      reads this
    {
      if active then Active(imageSize, accepted, replayIgnored) else Idle
    }

    ghost predicate Valid()
      reads this, block, head
    {
      && block.Length == BLOCK_SIZE && head.Length == HEAD_LEN && block != head
      && Current().Valid()
      && if active then
           var t := Current();
           && bytesWritten == |t.Image()| && blockNumber == t.Number() && lastBlockCrc16 == t.LastCrc()
           && blockLen == |t.Waiting()| && block[..blockLen] == t.Waiting()
           && imageCrc == Register(t.Image()) && head[..] == Head(t.Image())
         else bytesWritten == 0
    }

    constructor ()
      ensures Valid() && Current() == Idle && fresh(block) && fresh(head)
    {
      active, imageSize, bytesWritten, blockNumber, lastBlockCrc16 := false, 0, 0, 0, 0;
      replayIgnored, blockLen, imageCrc, accepted := false, 0, ALL_ONES, [];
      block := new Byte[BLOCK_SIZE](_ => 0);
      head := new Byte[HEAD_LEN](_ => 0);
    }

    /** `reset`. */
    method Reset()
      requires block.Length == BLOCK_SIZE && head.Length == HEAD_LEN && block != head
      modifies this, head
      ensures Valid() && Current() == Idle && accepted == [] && block[..] == old(block[..])
      ensures imageCrc == ALL_ONES && blockNumber == 0 && lastBlockCrc16 == 0 && blockLen == 0 && !replayIgnored
      ensures head[..] == seq(HEAD_LEN, _ => 0)
    {
      active, imageSize, bytesWritten, blockNumber, lastBlockCrc16 := false, 0, 0, 0, 0;
      replayIgnored, blockLen, imageCrc, accepted := false, 0, ALL_ONES, [];
      for i := 0 to HEAD_LEN
        invariant Valid() && Current() == Idle && accepted == []
        invariant forall j :: 0 <= j < i ==> head[j] == 0
        invariant imageCrc == ALL_ONES && blockNumber == 0 && lastBlockCrc16 == 0 && blockLen == 0 && !replayIgnored
      {
        head[i] := 0;
      }
    }

    /** `abort`. */
    method AbortTransfer() returns (reply: Reply)
      requires block.Length == BLOCK_SIZE && head.Length == HEAD_LEN && block != head
      modifies this, head
      ensures Valid() && Current() == Idle && reply == Stopped(old(Current()).Active?)
    {
      var was := active;
      Reset();
      reply := Stopped(was);
    }

    /** Starts anew, with nothing accepted. */
    method Open(size: U32)
      requires Valid() && size > 0
      modifies this, head
      ensures Valid() && Current() == Active(size, [], false)
    {
      Reset();
      active, imageSize := true, size;
      hide Head, Register, Written, Blocks, Crc;
      NothingYet(Current());
      assert block[..blockLen] == [];
    }

    /** `begin`. */
    method BeginTransfer(sink: FlashSink, size: U32, outcome: Outcome) returns (reply: Reply)
      requires Valid() && IsState(State(Current(), sink.slot))
      requires IsPossible(Begin(size, outcome), |sink.slot.flash|)
      modifies this, head, sink
      ensures Valid()
      ensures (State(Current(), sink.slot), reply) == Next(old(State(Current(), sink.slot)), Begin(size, outcome))
    {
      assert block.Length == BLOCK_SIZE && head.Length == HEAD_LEN && block != head;
      hide Valid, Transfer.Valid, Slot.Valid, Erased;
      if active { var stopped := AbortTransfer(); }
      if sink.slot.size.None? || size == 0 || size > sink.slot.size.value { return Refused; }
      var ok := sink.EraseSlot(outcome);
      if !ok { return EraseFailed; }
      Open(size);
      reply := Started;
    }

    /** `block_start`. */
    method StartBlock(number: U16, crc: U16) returns (reply: Reply)
      requires Valid()
      modifies this, head
      ensures Valid()
      ensures (Current(), reply) == OnBlockStart(old(Current()), number, crc)
    {
      if !active { return NotStarted; }
      if number == blockNumber && blockNumber > 0 && crc == lastBlockCrc16 {
        replayIgnored := true;
        reply := Replay(blockNumber, lastBlockCrc16);
      } else if number == blockNumber + 1 && blockLen == 0 {
        replayIgnored := false;
        reply := Expected;
      } else {
        var stopped := AbortTransfer();
        reply := Aborted;
      }
    }

    /** The block is whole: `whole` waits behind the `image` written so far. */
    ghost predicate IsFull(image: seq<Byte>, whole: seq<Byte>)
      reads this, block, head
    {
      && active && block.Length == BLOCK_SIZE && head.Length == HEAD_LEN && block != head
      && |image| % BLOCK_SIZE == 0 && 0 < |whole| == blockLen <= BLOCK_SIZE && block[..blockLen] == whole
      && accepted == image + whole && |accepted| <= imageSize
      && (|accepted| == imageSize || |whole| == BLOCK_SIZE)
      && bytesWritten == |image| && blockNumber == Blocks(|image|) % 0x1_0000
      && imageCrc == Register(image) && head[..] == Head(image)
    }

    /** Copies bytes behind those that wait. */
    method CopyIn(bytes: seq<Byte>)
      requires blockLen + |bytes| <= block.Length
      modifies `blockLen, `accepted, block
      ensures blockLen == old(blockLen) + |bytes| <= block.Length
      ensures block[..blockLen] == old(block[..blockLen]) + bytes
      ensures accepted == old(accepted) + bytes
    {
      for i := 0 to |bytes|
        invariant blockLen == old(blockLen) && accepted == old(accepted)
        invariant block[..blockLen + i] == old(block[..blockLen]) + bytes[..i]
      {
        block[blockLen + i] := bytes[i];
        assert block[..blockLen + i + 1] == block[..blockLen + i] + [bytes[i]];
      }
      blockLen := blockLen + |bytes|;
      accepted := accepted + bytes;
    }

    /** Takes bytes that do not make the block whole. */
    method Wait(bytes: seq<Byte>, ghost more: Transfer)
      requires Valid() && active && blockLen + |bytes| <= BLOCK_SIZE
      requires more == Current().(accepted := accepted + bytes) && more.Valid()
      requires more.Image() == Current().Image() && more.Waiting() == Current().Waiting() + bytes
      modifies `blockLen, `accepted, block
      ensures Valid() && Current() == more
    {
      hide Head, Register, Crc, Blocks, Written;
      hide Transfer.Image, Transfer.Waiting, Transfer.Number, Transfer.LastCrc, Transfer.Valid;
      SameBehind(Current(), more);
      CopyIn(bytes);
    }

    /** Takes bytes that make the block whole. */
    method Complete(bytes: seq<Byte>, ghost image: seq<Byte>, ghost whole: seq<Byte>)
      requires Valid() && active && 0 < |bytes| && blockLen + |bytes| <= BLOCK_SIZE
      requires image == Current().Image() && whole == Current().Waiting() + bytes
      requires |image| % BLOCK_SIZE == 0 && accepted + bytes == image + whole && |accepted + bytes| <= imageSize
      requires |accepted + bytes| == imageSize || |whole| == BLOCK_SIZE
      modifies `blockLen, `accepted, block
      ensures IsFull(image, whole) && accepted == old(accepted) + bytes
    {
      hide Head, Register, Crc, Blocks, Written;
      assert blockNumber == Blocks(|image|) % 0x1_0000;
      hide Transfer.Image, Transfer.Waiting, Transfer.Number, Transfer.LastCrc, Transfer.Valid;
      CopyIn(bytes);
    }

    /** Fills the block up to whole words. */
    method FillUp() returns (padded: nat)
      requires blockLen <= block.Length == BLOCK_SIZE
      modifies block
      ensures blockLen <= padded <= BLOCK_SIZE && block[..padded] == Filled(old(block[..blockLen]))
      ensures block[..blockLen] == old(block[..blockLen])
    {
      padded := (blockLen + 3) / 4 * 4;
      NextWord(blockLen, padded);
      for i := blockLen to padded
        invariant block[..i] == old(block[..blockLen]) + Erased(i - blockLen)
      {
        block[i] := 0xFF;
        assert block[..i + 1] == block[..i] + [0xFF];
      }
    }

    /** Keeps the head of a first block. */
    method KeepHead()
      requires blockLen <= block.Length && head.Length == HEAD_LEN && block != head
      modifies head
      ensures head[..] == HeadOf(block[..blockLen], old(head[..]))
    {
      var n := if blockLen < HEAD_LEN then blockLen else HEAD_LEN;
      for i := 0 to n
        invariant forall j :: 0 <= j < i ==> head[j] == block[j]
        invariant forall j :: i <= j < HEAD_LEN ==> head[j] == old(head[j])
      {
        head[i] := block[i];
      }
    }

    /** Counts the block that was just written. */
    method CountBlock(ghost image: seq<Byte>, ghost whole: seq<Byte>)
      requires IsFull(image, whole)
      modifies this, head
      ensures Valid() && active && imageSize == old(imageSize) && accepted == old(accepted)
      ensures replayIgnored == old(replayIgnored) && bytesWritten == |accepted|
    {
      hide Head, Register, Crc, Blocks, Transfer.Image, Transfer.Waiting, Transfer.Number, Transfer.LastCrc;
      ghost var t := Active(imageSize, accepted, replayIgnored);
      HeadMore(image, whole);
      WholeNow(t, image, whole);
      if blockNumber == 0 { KeepHead(); }
      imageCrc := Update(imageCrc, block[..blockLen], image);
      lastBlockCrc16 := Crc16Ccitt(block[..blockLen]);
      bytesWritten := bytesWritten + blockLen;
      blockLen := 0;
      blockNumber := (blockNumber + 1) % 0x1_0000;
      assert Current() == t && block[..blockLen] == [];
    }

    /** Writes the block that is whole. */
    method WriteBlock(sink: FlashSink, outcome: Outcome, ghost image: seq<Byte>, ghost whole: seq<Byte>)
      returns (reply: Reply)
      requires IsFull(image, whole) && !replayIgnored
      requires |image| + |Filled(whole)| <= |sink.slot.flash|
      modifies this, block, head, sink
      ensures Valid()
      ensures match outcome
              case Failed(left) =>
                && Current() == Idle && sink.slot == old(sink.slot).(flash := left) && reply == WriteFailed(0)
              case Done =>
                && Current() == Active(old(imageSize), old(accepted), false)
                && sink.slot == old(sink.slot).(flash := Patched(old(sink.slot.flash), |image|, Filled(whole)))
                && reply == BlockWritten(Current().Number(), Current().LastCrc(), |Current().Image()|)
    {
      hide Head, Register, Crc, Blocks, Written, Filled, Patched, Erased;
      hide Transfer.Image, Transfer.Waiting, Transfer.Room;
      var padded := FillUp();
      BlocksAreWords(bytesWritten);
      var ok := sink.Write(bytesWritten, block[..padded], outcome);
      if !ok {
        var stopped := AbortTransfer();
        return WriteFailed(bytesWritten);
      }
      CountBlock(image, whole);
      reply := BlockWritten(blockNumber, lastBlockCrc16, bytesWritten);
    }

    /** `data`. */
    method TakeData(sink: FlashSink, bytes: seq<Byte>, outcome: Outcome) returns (reply: Reply)
      requires Valid() && IsState(State(Current(), sink.slot))
      requires IsPossible(Data(bytes, outcome), |sink.slot.flash|)
      modifies this, block, head, sink
      ensures Valid()
      ensures (State(Current(), sink.slot), reply) == Next(old(State(Current(), sink.slot)), Data(bytes, outcome))
    {
      if !active || bytes == [] || replayIgnored { return Nothing; }
      var remaining := imageSize - bytesWritten - blockLen;
      var toCopy := if |bytes| < remaining then |bytes| else remaining;
      if BLOCK_SIZE - blockLen < toCopy { toCopy := BLOCK_SIZE - blockLen; }
      ghost var t := Current();
      RoomLeft(t);
      if toCopy == 0 { return Nothing; }
      ghost var image, whole := t.Image(), t.Waiting() + bytes[..toCopy];
      DataIs(State(t, sink.slot), bytes, outcome, toCopy);
      RoomFilled(t, bytes[..toCopy]);
      hide Next, Valid, Head, Register, Crc, Blocks, Written, Filled, Patched, IsState, IsPossible;
      hide Transfer.Image, Transfer.Waiting, Transfer.Number, Transfer.LastCrc, Transfer.Valid, Transfer.Room;
      hide Slot.Valid;
      var left := imageSize - bytesWritten;
      var expected := if left < BLOCK_SIZE then left else BLOCK_SIZE;
      if blockLen + toCopy < expected {
        Wait(bytes[..toCopy], t.(accepted := t.accepted + bytes[..toCopy]));
        return Nothing;
      }
      Complete(bytes[..toCopy], image, whole);
      reply := WriteBlock(sink, outcome, image, whole);
    }

    /** `end`. */
    method EndTransfer(sink: FlashSink, sum: U32, accepts: bool) returns (reply: Reply)
      requires Valid() && IsState(State(Current(), sink.slot))
      modifies this, head, sink
      ensures Valid()
      ensures (State(Current(), sink.slot), reply) == Next(old(State(Current(), sink.slot)), End(sum, accepts))
    {
      if !active { return NotActive; }
      WholeExactly(Current());
      hide Head, Register, Written, Crc;
      if blockLen != 0 || bytesWritten != imageSize || Finish(imageCrc) != sum {
        var written := bytesWritten;
        var stopped := AbortTransfer();
        return Mismatch(written);
      }
      var first := head[..];
      var ok := IsBootable(first);
      if ok { ok := sink.CommitImage(first, imageSize, accepts); }
      Reset();
      reply := if ok then Finished else CommitFailed;
    }
  }
}
