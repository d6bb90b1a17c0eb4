/**
 Consistent overhead byte stuffing: a coding of bytes without the byte zero, which is left
 to mark the end of a message.
 */
module Cobs {
  import opened Bytes
  import opened Prelude

  const MAX_BLOCK := 254

  predicate HasNoZero(x: seq<Byte>) {
    forall i :: 0 <= i < |x| ==> x[i] != 0
  }

  /** How many bytes come before the first zero, up to `n`. */
  function Lead(x: seq<Byte>, n: nat): (k: nat)
    ensures k <= n && k <= |x| && HasNoZero(x[..k]) && (k < n && k < |x| ==> x[k] == 0)
  {
    if n == 0 || x == [] || x[0] == 0 then 0
    else
      var k := Lead(x[1..], n - 1);
      assert x[..k + 1] == [x[0]] + x[1..][..k];
      k + 1
  }

  /** Each block is a code, one more than its length, and the block; a full block has no zero after it. */
  function Stuffed(x: seq<Byte>): (y: seq<Byte>)
    ensures |y| > |x|
  {
    var k := Lead(x, MAX_BLOCK);
    if k == MAX_BLOCK then [0xFF] + x[..k] + Stuffed(x[k..])
    else if k == |x| then [k + 1] + x
    else [k + 1] + x[..k] + Stuffed(x[k + 1..])
  }

  function Unstuffed(y: seq<Byte>): Option<seq<Byte>> {
    if y == [] then Some([])
    else if y[0] == 0 || y[0] > |y| then None
    else
      match Unstuffed(y[y[0]..])
      case None => None
      case Some(rest) => Some(y[1..y[0]] + (if y[0] != 0xFF && y[0] != |y| then [0] else []) + rest)
  }

  lemma {:induction false} LeadOfBlock(p: seq<Byte>, r: seq<Byte>, n: nat)
    requires HasNoZero(p) && |p| <= n && (|p| == n || r == [] || r[0] == 0)
    ensures Lead(p + r, n) == |p|
  {
    if p == [] {
      assert p + r == r;
    } else {
      assert (p + r)[1..] == p[1..] + r;
      LeadOfBlock(p[1..], r, n - 1);
    }
  }

  lemma StuffedLast(p: seq<Byte>)
    requires HasNoZero(p) && |p| < MAX_BLOCK
    ensures Stuffed(p) == [|p| + 1] + p
  {
    ConcatNil(p);
    LeadOfBlock(p, [], MAX_BLOCK);
  }

  lemma StuffedZero(p: seq<Byte>, r: seq<Byte>)
    requires HasNoZero(p) && |p| < MAX_BLOCK
    ensures Stuffed(p + [0] + r) == [|p| + 1] + p + Stuffed(r)
  {
    var x := p + ([0] + r);
    Associate(p, [0], r);
    LeadOfBlock(p, [0] + r, MAX_BLOCK);
    assert x[..|p|] == p && x[|p| + 1..] == r;
  }

  lemma StuffedFull(p: seq<Byte>, r: seq<Byte>)
    requires HasNoZero(p) && |p| == MAX_BLOCK
    ensures Stuffed(p + r) == [0xFF] + p + Stuffed(r)
  {
    LeadOfBlock(p, r, MAX_BLOCK);
    assert (p + r)[..|p|] == p && (p + r)[|p|..] == r;
  }

  /** The coding of the input, when `done` is coded, `block` is pending and `rest` is to come. */
  predicate IsCodedTo(input: seq<Byte>, done: seq<Byte>, block: seq<Byte>, rest: seq<Byte>) {
    && Stuffed(input) == done + Stuffed(block + rest)
    && HasNoZero(block) && |block| < MAX_BLOCK
  }

  lemma CodeStart(input: seq<Byte>)
    ensures IsCodedTo(input, [], [], input)
  {
    ConcatNil(input);
    ConcatNil(Stuffed(input));
    hide Stuffed;
  }

  lemma Regroup(done: seq<Byte>, code: Byte, block: seq<Byte>, more: seq<Byte>)
    ensures done + ([code] + block + more) == done + [code] + block + more
  {
  }

  lemma CodeZero(input: seq<Byte>, done: seq<Byte>, block: seq<Byte>, rest: seq<Byte>)
    requires rest != [] && rest[0] == 0 && IsCodedTo(input, done, block, rest)
    ensures IsCodedTo(input, done + [|block| + 1] + block, [], rest[1..])
  {
    assert block + rest == block + [0] + rest[1..];
    StuffedZero(block, rest[1..]);
    ConcatNil(rest[1..]);
    Regroup(done, |block| + 1, block, Stuffed(rest[1..]));
    hide Stuffed;
  }

  lemma CodeByte(input: seq<Byte>, done: seq<Byte>, block: seq<Byte>, rest: seq<Byte>)
    requires rest != [] && rest[0] != 0 && IsCodedTo(input, done, block, rest)
    ensures var longer := block + [rest[0]];
            if |longer| < MAX_BLOCK then IsCodedTo(input, done, longer, rest[1..])
            else IsCodedTo(input, done + [0xFF] + longer, [], rest[1..])
  {
    var longer := block + [rest[0]];
    assert block + rest == longer + rest[1..];
    hide Stuffed;
    if |longer| == MAX_BLOCK {
      StuffedFull(longer, rest[1..]);
      ConcatNil(rest[1..]);
      Regroup(done, 0xFF, longer, Stuffed(rest[1..]));
    }
  }

  lemma CodeEnd(input: seq<Byte>, done: seq<Byte>, block: seq<Byte>)
    requires IsCodedTo(input, done, block, [])
    ensures Stuffed(input) == done + [|block| + 1] + block
  {
    ConcatNil(block);
    StuffedLast(block);
    Associate(done, [|block| + 1], block);
    hide Stuffed;
  }

  /** What is coded and pending fits in the coding. */
  lemma CodeIsLonger(input: seq<Byte>, done: seq<Byte>, block: seq<Byte>, rest: seq<Byte>)
    requires IsCodedTo(input, done, block, rest)
    ensures |Stuffed(input)| > |done| + |block| + |rest|
  {
  }

  /** `cobs_encode`, into the array given, if it is long enough. */
  method Encode(input: seq<Byte>, out: array<Byte>) returns (length: Option<nat>)
    modifies out
    ensures length == if |Stuffed(input)| <= out.Length then Some(|Stuffed(input)|) else None
    ensures length.Some? ==> out[..length.value] == Stuffed(input)
  {
    CodeStart(input);
    hide Stuffed, HasNoZero, IsCodedTo;
    CodeIsLonger(input, [], [], input);
    if out.Length == 0 { return None; }
    var write, codeAt, code := 1, 0, 1;
    ghost var done, block: seq<Byte> := [], [];
    for i := 0 to |input|
      invariant codeAt == |done| && code == |block| + 1 && codeAt + code == write <= out.Length && code <= MAX_BLOCK
      invariant out[..codeAt] == done && out[codeAt + 1..write] == block
      invariant IsCodedTo(input, done, block, input[i..])
    {
      var byte := input[i];
      CodeIsLonger(input, done, block, input[i..]);
      assert input[i..][1..] == input[i + 1..];
      if byte == 0 {
        CodeZero(input, done, block, input[i..]);
        out[codeAt] := code;
        assert out[..write] == done + [code] + block;
        done, block := done + [code] + block, [];
        code, codeAt, write := 1, write, write + 1;
      } else {
        CodeByte(input, done, block, input[i..]);
        if write >= out.Length { return None; }
        out[write] := byte;
        block := block + [byte];
        write, code := write + 1, code + 1;
        if code == 0xFF {
          out[codeAt] := code;
          assert out[..write] == done + [code] + block;
          done, block := done + [code] + block, [];
          code, codeAt, write := 1, write, write + 1;
        }
      }
      CodeIsLonger(input, done, block, input[i + 1..]);
      if write > out.Length { return None; }
    }
    assert input[|input|..] == [];
    CodeEnd(input, done, block);
    out[codeAt] := code;
    assert out[..write] == done + [code] + block;
    length := Some(write);
  }

  /** The decoding of the input, when `done` is decoded and `rest` is to come. */
  predicate IsDecodedTo(input: seq<Byte>, done: seq<Byte>, rest: seq<Byte>) {
    Unstuffed(input) == match Unstuffed(rest) case None => None case Some(more) => Some(done + more)
  }

  /** What one block decodes to. */
  function BlockOf(rest: seq<Byte>): seq<Byte>
    requires rest != [] && 0 < rest[0] <= |rest|
  {
    rest[1..rest[0]] + if rest[0] != 0xFF && rest[0] != |rest| then [0] else []
  }

  lemma DecodeBlock(input: seq<Byte>, done: seq<Byte>, rest: seq<Byte>)
    requires rest != [] && IsDecodedTo(input, done, rest)
    ensures if rest[0] == 0 || rest[0] > |rest| then Unstuffed(input) == None
            else IsDecodedTo(input, done + BlockOf(rest), rest[rest[0]..])
  {
    if 0 < rest[0] <= |rest| {
      var later := Unstuffed(rest[rest[0]..]);
      if later.Some? { Associate(done, BlockOf(rest), later.value); }
    }
  }

  /** `cobs_decode`, into the array given, if it is long enough. */
  method Decode(input: seq<Byte>, out: array<Byte>) returns (length: Option<nat>)
    modifies out
    ensures length == if Unstuffed(input).Some? && |Unstuffed(input).value| <= out.Length
                      then Some(|Unstuffed(input).value|) else None
    ensures length.Some? ==> out[..length.value] == Unstuffed(input).value
    ensures length.None? <==> || HasZeroCode(input) || EndsShort(input)
                              || (Unstuffed(input).Some? && |Unstuffed(input).value| > out.Length)
  {
    RefusedExactly(input);
    hide HasZeroCode, EndsShort;
    var read, write := 0, 0;
    ghost var done: seq<Byte>, rest := [], input;
    DecodeStart(input);
    hide Unstuffed, IsDecodedTo;
    while read < |input|
      invariant read <= |input| && rest == input[read..]
      invariant write <= out.Length && done == out[..write]
      invariant IsDecodedTo(input, done, rest)
    {
      DecodeBlock(input, done, rest);
      var code := input[read];
      if code == 0 { return None; }
      if read + code > |input| && code != 1 { return None; }
      ghost var next := done + BlockOf(rest);
      DecodedIsLonger(input, next, rest[code..]);
      read := read + 1;
      for k := 1 to code
        invariant write == |done| + k - 1 <= out.Length
        invariant out[..write] == done + rest[1..k] && read == |input| - |rest| + k
      {
        if write >= out.Length { return None; }
        out[write] := input[read];
        write, read := write + 1, read + 1;
      }
      if code != 0xFF && read != |input| {
        if write >= out.Length { return None; }
        out[write] := 0;
        write := write + 1;
      }
      done, rest := next, rest[code..];
    }
    DecodeEnd(input, done);
    length := Some(write);
  }

  lemma DecodeStart(input: seq<Byte>)
    ensures IsDecodedTo(input, [], input)
  {
    if Unstuffed(input).Some? { ConcatNil(Unstuffed(input).value); }
    hide Unstuffed;
  }

  lemma DecodeEnd(input: seq<Byte>, done: seq<Byte>)
    requires IsDecodedTo(input, done, [])
    ensures Unstuffed(input) == Some(done)
  {
    ConcatNil(done);
  }

  lemma DecodedIsLonger(input: seq<Byte>, done: seq<Byte>, rest: seq<Byte>)
    requires IsDecodedTo(input, done, rest)
    ensures Unstuffed(input).Some? ==> |Unstuffed(input).value| >= |done|
  {
  }

  // ---------- Laws ----------

  lemma CutAt(x: seq<Byte>, k: nat)
    requires k <= |x|
    ensures x == x[..k] + x[k..]
    ensures k < |x| ==> x == x[..k] + [x[k]] + x[k + 1..]
  {
  }

  /** Every message is decoded from its coding, whatever bytes it holds and however long it is. */
  lemma {:induction false} UnstuffedStuffed(x: seq<Byte>)
    ensures Unstuffed(Stuffed(x)) == Some(x)
  {
    var k := Lead(x, MAX_BLOCK);
    var block := x[..k];
    CutAt(x, k);
    hide Stuffed, Unstuffed, Lead, HasNoZero;
    if k == MAX_BLOCK {
      UnstuffedStuffed(x[k..]);
      StuffedFull(block, x[k..]);
      UnstuffedBlock(block, Stuffed(x[k..]));
    } else if k == |x| {
      assert x == block;
      StuffedLast(x);
      LastBlock(x);
    } else {
      UnstuffedStuffed(x[k + 1..]);
      StuffedZero(block, x[k + 1..]);
      UnstuffedBlock(block, Stuffed(x[k + 1..]));
    }
  }

  /** The last block has no zero after it. */
  lemma LastBlock(block: seq<Byte>)
    requires |block| < MAX_BLOCK
    ensures Unstuffed([|block| + 1] + block) == Some(block)
  {
    ConcatNil([|block| + 1] + block);
    ConcatNil(block);
    assert Unstuffed([]) == Some([]);
    hide Unstuffed;
    UnstuffedBlock(block, []);
  }

  lemma UnstuffedBlock(block: seq<Byte>, more: seq<Byte>)
    requires |block| <= MAX_BLOCK && Unstuffed(more).Some?
    ensures Unstuffed([|block| + 1] + block + more)
         == Some(if |block| != MAX_BLOCK && more != [] then block + [0] + Unstuffed(more).value
                 else block + Unstuffed(more).value)
  {
    var y := [|block| + 1] + block + more;
    assert y[|block| + 1..] == more && y[1..|block| + 1] == block;
    ConcatNil(block);
  }

  /** A coding has no zero byte, and is longer by one byte, and one more for every 254 bytes, at most. */
  lemma {:induction false} StuffedShape(x: seq<Byte>)
    ensures HasNoZero(Stuffed(x)) && |Stuffed(x)| <= |x| + |x| / 254 + 1
  {
    var k := Lead(x, MAX_BLOCK);
    if k == MAX_BLOCK {
      StuffedShape(x[k..]);
      BlockHasNoZero(x[..k], Stuffed(x[k..]));
    } else if k < |x| {
      StuffedShape(x[k + 1..]);
      BlockHasNoZero(x[..k], Stuffed(x[k + 1..]));
    } else {
      BlockHasNoZero(x, []);
    }
    hide HasNoZero;
  }

  lemma BlockHasNoZero(block: seq<Byte>, more: seq<Byte>)
    requires |block| <= MAX_BLOCK && HasNoZero(block) && HasNoZero(more)
    ensures HasNoZero([|block| + 1] + block + more)
  {
  }

  // ---------- What is accepted ----------

  /** Blocks of bytes, of any value, none of them too long. */
  predicate AreBlocks(blocks: seq<seq<Byte>>) {
    forall i :: 0 <= i < |blocks| ==> |blocks[i]| <= MAX_BLOCK
  }

  /** The blocks one after the other, each after one more than its length. */
  function Laid(blocks: seq<seq<Byte>>): seq<Byte>
    requires AreBlocks(blocks)
  {
    if blocks == [] then [] else [|blocks[0]| + 1] + blocks[0] + Laid(blocks[1..])
  }

  /** The blocks with a zero after each that is neither full nor the last. */
  function Joined(blocks: seq<seq<Byte>>): seq<Byte> {
    if blocks == [] then []
    else if |blocks[0]| != MAX_BLOCK && |blocks| > 1 then blocks[0] + [0] + Joined(blocks[1..])
    else blocks[0] + Joined(blocks[1..])
  }

  /** What no block starts with: a zero in place of a code, or a code that reaches past the end. */
  predicate IsBadStart(rest: seq<Byte>) {
    rest != [] && (rest[0] == 0 || rest[0] > |rest|)
  }

  /** The input is these blocks and then `rest`. */
  predicate IsCut(y: seq<Byte>, blocks: seq<seq<Byte>>, rest: seq<Byte>) {
    AreBlocks(blocks) && y == Laid(blocks) + rest
  }

  /** A zero stands where a code is expected. */
  ghost predicate HasZeroCode(y: seq<Byte>) {
    exists blocks, rest :: IsCut(y, blocks, rest) && rest != [] && rest[0] == 0
  }

  /** The last block is shorter than its code says. */
  ghost predicate EndsShort(y: seq<Byte>) {
    exists blocks, rest :: IsCut(y, blocks, rest) && rest != [] && rest[0] > |rest|
  }

  lemma {:induction false} LaidIsDecoded(blocks: seq<seq<Byte>>)
    requires AreBlocks(blocks)
    ensures Unstuffed(Laid(blocks)) == Some(Joined(blocks)) && (Laid(blocks) == [] <==> blocks == [])
  {
    if blocks != [] {
      LaidIsDecoded(blocks[1..]);
      hide Unstuffed;
      UnstuffedBlock(blocks[0], Laid(blocks[1..]));
    }
  }

  lemma {:induction false} BadStartIsRefused(y: seq<Byte>, blocks: seq<seq<Byte>>, rest: seq<Byte>)
    requires IsCut(y, blocks, rest) && IsBadStart(rest)
    ensures Unstuffed(y).None?
    decreases |blocks|
  {
    if blocks == [] {
      ConcatNil(rest);
    } else {
      var block, more := blocks[0], Laid(blocks[1..]) + rest;
      Associate([|block| + 1] + block, Laid(blocks[1..]), rest);
      BadStartIsRefused(more, blocks[1..], rest);
      hide Laid;
      assert y[|block| + 1..] == more;
    }
  }

  /** Any input is a row of blocks and a rest that no block starts with. */
  lemma {:induction false} CutIntoBlocks(y: seq<Byte>) returns (blocks: seq<seq<Byte>>, rest: seq<Byte>)
    ensures IsCut(y, blocks, rest) && (rest == [] || IsBadStart(rest))
  {
    if y == [] || IsBadStart(y) {
      blocks, rest := [], y;
      ConcatNil(y);
    } else {
      var more, block := y[y[0]..], y[1..y[0]];
      var others: seq<seq<Byte>>;
      others, rest := CutIntoBlocks(more);
      blocks := [block] + others;
      assert blocks[1..] == others;
      Associate([y[0]] + block, Laid(others), rest);
      assert y == [y[0]] + block + more;
    }
  }

  /** The decoder accepts exactly the rows of blocks, whatever bytes they hold, and joins them. */
  lemma AcceptedExactly(y: seq<Byte>)
    ensures Unstuffed(y).Some? <==> exists blocks :: AreBlocks(blocks) && Laid(blocks) == y
    ensures forall blocks :: AreBlocks(blocks) && Laid(blocks) == y ==> Unstuffed(y) == Some(Joined(blocks))
  {
    var cut, rest := CutIntoBlocks(y);
    hide Unstuffed, Laid, Joined;
    if rest == [] {
      ConcatNil(Laid(cut));
    } else {
      BadStartIsRefused(y, cut, rest);
    }
    forall blocks | AreBlocks(blocks) && Laid(blocks) == y
      ensures Unstuffed(y) == Some(Joined(blocks))
    {
      LaidIsDecoded(blocks);
    }
  }

  /**
   It refuses exactly the inputs with a zero in place of a code or a block that ends short.
   So a zero is an error in place of a code only.
   */
  lemma RefusedExactly(y: seq<Byte>)
    ensures Unstuffed(y).None? <==> HasZeroCode(y) || EndsShort(y)
  {
    var cut, rest := CutIntoBlocks(y);
    if rest == [] {
      LaidIsDecoded(cut);
      ConcatNil(Laid(cut));
    }
    hide Unstuffed, IsCut;
    forall blocks, bad | IsCut(y, blocks, bad) && IsBadStart(bad)
      ensures Unstuffed(y).None?
    {
      BadStartIsRefused(y, blocks, bad);
    }
  }

  /** Without zeros, only a block that ends short is refused. */
  lemma ZeroFreeRefusal(y: seq<Byte>)
    requires HasNoZero(y)
    ensures Unstuffed(y).None? <==> EndsShort(y)
  {
    RefusedExactly(y);
    hide Unstuffed;
    forall blocks, rest | IsCut(y, blocks, rest) && rest != []
      ensures rest[0] != 0
    {
      assert y[|y| - |rest|] == rest[0];
    }
    hide IsCut;
  }

  /** Inside a block, zeros are decoded like other bytes. */
  lemma ZeroInBlockIsDecoded(before: seq<seq<Byte>>, block: seq<Byte>, after: seq<seq<Byte>>)
    requires AreBlocks(before) && AreBlocks(after) && 0 in block && |block| <= MAX_BLOCK
    ensures var all := before + [block] + after;
            AreBlocks(all) && 0 in Laid(all) && Unstuffed(Laid(all)) == Some(Joined(all))
  {
    LaidIsDecoded(before + [block] + after);
    ZeroStays(before, block, after);
  }

  lemma {:induction false} ZeroStays(before: seq<seq<Byte>>, block: seq<Byte>, after: seq<seq<Byte>>)
    requires AreBlocks(before) && AreBlocks(after) && 0 in block && |block| <= MAX_BLOCK
    ensures AreBlocks(before + [block] + after) && 0 in Laid(before + [block] + after)
  {
    var all := before + [block] + after;
    if before != [] {
      ZeroStays(before[1..], block, after);
      assert all[1..] == before[1..] + [block] + after;
    }
  }
}
