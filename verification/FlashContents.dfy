/**
 The firmware update byte by byte, with every size written out: what the slot holds after
 any run of commands, which images are committed, and how an image is cut up on the line.
 */
module FlashContents {
  import opened Bytes
  import opened Crc32
  import opened Flash

  /** How much of what was accepted is written: whole blocks, or everything once it is complete. */
  function Stored(t: Transfer): int
    requires t.Active?
  {
    if |t.accepted| == t.size then t.size else |t.accepted| - |t.accepted| % 2048
  }

  lemma StoredIsWritten(t: Transfer)
    requires t.Active? && t.Valid()
    ensures Stored(t) == |t.Image()|
  {
    BlocksAndRest(|t.accepted|);
  }

  lemma BlocksAndRest(n: nat)
    ensures n / 2048 * 2048 == n - n % 2048
  {
  }

  /**
   After any run of commands, failed writes included, the slot of an active transfer holds
   the blocks accepted since its BEGIN, and every byte behind them is erased.
   */
  lemma SlotExactly(st: State, cs: seq<Command>)
    requires IsFaithful(st) && ArePossible(cs, |st.slot.flash|)
    ensures var s := After(st, cs);
            s.transfer.Active? ==>
              && 0 < s.transfer.size <= |s.slot.flash| && 0 <= Stored(s.transfer) <= |s.transfer.accepted|
              && forall i :: 0 <= i < |s.slot.flash| ==>
                   s.slot.flash[i] == if i < Stored(s.transfer) then s.transfer.accepted[i] else 0xFF
  {
    var s := After(st, cs);
    hide After;
    if s.transfer.Active? {
      StoredIsWritten(s.transfer);
    }
  }

  /** A data frame is taken as far as the image and its block of 2048 bytes go, and not at all during a replay. */
  lemma TakenExactly(st: State, bytes: seq<Byte>)
    requires IsFaithful(st) && st.transfer.Active?
    ensures var t, next := st.transfer, Next(st, Data(bytes, Done)).0.transfer;
            && next.Active? && next.size == t.size && next.ignoring == t.ignoring
            && (t.ignoring ==> next == t)
            && (!t.ignoring ==>
                  exists n :: 0 <= n <= |bytes| && next.accepted == t.accepted + bytes[..n]
                              && (n == |bytes| || |t.accepted| + n == t.size || (|t.accepted| + n) % 2048 == 0)
                              && |t.accepted| + n <= t.size && n <= 2048 - |t.accepted| % 2048)
  {
    var n, t := Taken(st.transfer, bytes), st.transfer;
    assert t.accepted + bytes[..0] == t.accepted;
    StoredIsWritten(t);
    if n > 0 {
      TakenMore(t, bytes[..n]);
    }
    hide Filled, Patched;
  }

  // ---------- What is committed ----------

  /** A byte of the head that is kept: that of the image, or zero behind a short one. */
  function HeadByte(image: seq<Byte>, i: nat): Byte {
    if i < |image| then image[i] else 0
  }

  /** The magic byte, one to sixteen segments, and the number of the chip. */
  predicate IsImage(image: seq<Byte>) {
    && HeadByte(image, 0) == 0xE9 && 1 <= HeadByte(image, 1) <= 16
    && HeadByte(image, 12) as int + 256 * HeadByte(image, 13) as int == 9
  }

  lemma HeadExactly(image: seq<Byte>)
    requires |image| <= 65536 * 2048
    ensures |Head(image)| == 24 && forall i: nat :: i < 24 ==> Head(image)[i] == HeadByte(image, i)
    ensures IsBootable(Head(image)) <==> IsImage(image)
  {
    HeadIsFirst(image);
    hide Head;
  }

  /** The commit of an image: its size and the first bytes of its head. */
  predicate IsCommitOf(c: Commit, image: seq<Byte>) {
    c.size == |image| && |c.head| == 24 && forall i: nat :: i < 24 ==> c.head[i] == HeadByte(image, i)
  }

  lemma EndExactly(st: State, sum: U32, accepts: bool)
    requires IsState(st) && (st.transfer.Active? ==> st.transfer.size <= 65536 * 2048)
    ensures var t, before, after := st.transfer, st.slot.commits, Next(st, End(sum, accepts)).0.slot.commits;
            if t.Active? && |t.accepted| == t.size && Checksum(t.accepted) == sum && IsImage(t.accepted)
            then exists c :: after == before + [c] && IsCommitOf(c, t.accepted)
            else after == before
  {
    var t := st.transfer;
    hide Head, Checksum, IsBootable, IsImage, Written;
    if t.Active? && |t.accepted| == t.size {
      HeadExactly(t.accepted);
      assert IsCommitOf(Commit(Head(t.accepted), t.size), t.accepted);
    }
    hide HeadByte, IsCommitOf;
  }

  /** After any run of commands, an END commits exactly a complete image with its checksum that is one of this chip. */
  lemma CommitExactly(st: State, cs: seq<Command>, sum: U32, accepts: bool)
    requires IsFaithful(st) && ArePossible(cs, |st.slot.flash|)
    requires var t := After(st, cs).transfer; t.Active? ==> t.size <= 65536 * 2048
    ensures IsState(After(st, cs))
    ensures var t, before := After(st, cs).transfer, After(st, cs).slot.commits;
            var after := Next(After(st, cs), End(sum, accepts)).0.slot.commits;
            if t.Active? && |t.accepted| == t.size && Checksum(t.accepted) == sum && IsImage(t.accepted)
            then exists c :: after == before + [c] && IsCommitOf(c, t.accepted)
            else after == before
  {
    assert IsState(After(st, cs));
    hide *;
    EndExactly(After(st, cs), sum, accepts);
  }

  // ---------- On the line ----------

  /** The blocks of an image are its bytes in order, 2048 at a time. */
  lemma BlockExactly(image: seq<Byte>, k: nat)
    requires 0 < k <= Blocks(|image|)
    ensures var block, at := BlockOf(image, k), 2048 * (k - 1);
            && at < |image| && (|block| == 2048 || at + |block| == |image|) && 0 < |block| <= 2048
            && block == image[at..at + |block|]
    ensures 2048 * (Blocks(|image|) - 1) < |image| <= 2048 * Blocks(|image|)
  {
  }

  /** A block is sent in frames of eight bytes, the last one with what is left. */
  lemma {:induction false} FrameExactly(block: seq<Byte>, i: nat)
    requires 8 * i < |block|
    ensures i < |Frames(block)| && |Frames(block)| == (|block| + 7) / 8
    ensures Frames(block)[i] == Data(block[8 * i..if 8 * i + 8 < |block| then 8 * i + 8 else |block|], Done)
    decreases i, |block|
  {
    if |block| > 8 {
      var rest := block[8..];
      FrameExactly(rest, if i == 0 then 0 else i - 1);
      assert Frames(block) == [Data(block[..8], Done)] + Frames(rest);
      hide Frames;
      if i > 0 {
        var j := 8 * (i - 1);
        assert rest[j..if j + 8 < |rest| then j + 8 else |rest|]
            == block[j + 8..if j + 16 < |block| then j + 16 else |block|];
      }
    }
  }
}
