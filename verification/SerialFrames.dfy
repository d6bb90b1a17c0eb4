/**
 CAN frames on the serial line: a checked message, stuffed, and ended by a zero byte; and
 the decoder that finds the frames again in any stream of bytes.
 */
module SerialFrames {
  import opened Bytes
  import opened Cobs
  import opened Crc16
  import opened Prelude

  const MAX_PDU_SIZE := 13
  const MAX_COBS_SIZE := 14
  const MAX_FRAMED_SIZE := 15

  type Payload = data: seq<Byte> | |data| == 8 witness [0, 0, 0, 0, 0, 0, 0, 0]

  datatype Frame = Frame(id: U16, len: Byte, data: Payload)

  datatype FramingError = Length | BadCrc | Id

  /** What the checksum covers: identifier, length and payload. */
  function Body(f: Frame): seq<Byte>
    requires f.len <= 8
  {
    [Low(f.id), High(f.id), f.len] + f.data[..f.len]
  }

  function Checked(body: seq<Byte>): seq<Byte> {
    body + [Low(Crc(body)), High(Crc(body))]
  }

  predicate IsEncodable(f: Frame) {
    f.len <= 8 && f.id <= 0x7FF
  }

  function Pdu(f: Frame): seq<Byte>
    requires IsEncodable(f)
  {
    Checked(Body(f))
  }

  lemma PduIs(f: Frame, body: seq<Byte>)
    requires IsEncodable(f) && body == [Low(f.id), High(f.id), f.len] + f.data[..f.len]
    ensures Pdu(f) == body + [Low(Crc(body)), High(Crc(body))]
  {
  }

  /** `copy_from_slice` into `out[at..]`. */
  method CopyFromSlice(out: array<Byte>, at: nat, data: seq<Byte>)
    requires at + |data| <= out.Length
    modifies out
    ensures out[..at] == old(out[..at]) && out[at..at + |data|] == data
    ensures out[at + |data|..] == old(out[at + |data|..])
  {
    for k := 0 to |data|
      invariant out[..at] == old(out[..at]) && out[at..at + k] == data[..k]
      invariant out[at + |data|..] == old(out[at + |data|..])
    {
      out[at + k] := data[k];
    }
  }

  /** The message of a frame within bounds. */
  method WritePdu(f: Frame, out: array<Byte>) returns (n: nat)
    requires out.Length == 13 && f.len <= 8 && f.id <= 0x7FF && IsEncodable(f)
    modifies out
    ensures n <= out.Length && out[..n] == Pdu(f)
  {
    hide *;
    out[0], out[1], out[2] := Low(f.id), High(f.id), f.len;
    CopyFromSlice(out, 3, f.data[..f.len]);
    var bodyLen := 3 + f.len;
    assert out[..bodyLen] == out[..3] + out[3..bodyLen];
    var crc := Crc16Ccitt(out[..bodyLen]);
    out[bodyLen], out[bodyLen + 1] := Low(crc), High(crc);
    PduIs(f, out[..bodyLen]);
    n := bodyLen + 2;
  }

  /** `encode_pdu`. */
  method EncodePdu(f: Frame, out: array<Byte>) returns (r: Result<nat, FramingError>)
    requires out.Length == MAX_PDU_SIZE
    modifies out
    ensures r == if f.len > 8 then Err(Length) else if f.id > 0x7FF then Err(Id) else Ok(|Pdu(f)|)
    ensures if r.Ok? then out[..r.value] == Pdu(f) else out[..] == old(out[..])
  {
    if f.len > 8 { return Err(Length); }
    if f.id > 0x7FF { return Err(Id); }
    var n := WritePdu(f, out);
    hide Pdu;
    r := Ok(n);
  }

  /** The payload bytes and zeros up to eight. */
  function Padded(payload: seq<Byte>): Payload
    requires |payload| <= 8
  {
    payload + seq(8 - |payload|, _ => 0)
  }

  /** The frame with the bytes past its length set to zero. */
  function AsRead(f: Frame): Frame
    requires IsEncodable(f)
  {
    f.(data := Padded(f.data[..f.len]))
  }

  /** `decode_pdu`. */
  function DecodePdu(x: seq<Byte>): Result<Frame, FramingError> {
    if |x| < 5 then Err(Length)
    else
      var dlc := x[2];
      if dlc > 8 || |x| != 3 + dlc + 2 then Err(Length)
      else if Crc(x[..3 + dlc]) != Unsigned(x[3 + dlc], x[3 + dlc + 1]) then Err(BadCrc)
      else if Unsigned(x[0], x[1]) > 0x7FF then Err(Id)
      else Ok(Frame(Unsigned(x[0], x[1]), dlc, Padded(x[3..3 + dlc])))
  }

  /** The bytes past the length are zero, as the constructor of the frames leaves them. */
  predicate IsPadded(f: Frame) {
    f.len <= 8 && f.data == Padded(f.data[..f.len])
  }

  // ---------- The message ----------

  lemma PduParts(f: Frame)
    requires IsEncodable(f)
    ensures var x, n := Pdu(f), 3 + f.len;
            && |x| == n + 2 && x[..n] == Body(f) && x[2] == f.len && x[3..n] == f.data[..f.len]
            && Unsigned(x[0], x[1]) == f.id && Unsigned(x[n], x[n + 1]) == Crc(Body(f))
  {
    UnsignedBytes(f.id);
    UnsignedBytes(Crc(Body(f)));
    hide Low, High, Unsigned, Crc;
  }

  lemma PduIsRead(f: Frame)
    requires IsEncodable(f)
    ensures DecodePdu(Pdu(f)) == Ok(AsRead(f))
  {
    PduParts(f);
    hide Low, High, Unsigned, Crc, Pdu;
  }

  lemma OnlyPdusAreRead(x: seq<Byte>, f: Frame)
    requires DecodePdu(x) == Ok(f)
    ensures IsEncodable(f) && IsPadded(f) && x == Pdu(f)
  {
    var n := 3 + f.len;
    BytesOfUnsigned(x[0], x[1]);
    BytesOfUnsigned(x[n], x[n + 1]);
    hide Low, High, Unsigned, Crc;
    assert x == x[..n] + [x[n], x[n + 1]] && x[..n] == [x[0], x[1], x[2]] + x[3..n];
    assert f.data[..f.len] == x[3..n];
  }

  /**
   A message byte by byte: the identifier, the length, so many bytes of payload, and the
   checksum of all these; and which of the errors each other message is.
   */
  lemma MessageExactly(x: seq<Byte>)
    ensures var r, isLong := DecodePdu(x), |x| >= 5 && x[2] <= 8 && |x| == x[2] as int + 5;
            && (r == Err(Length) <==> !isLong)
            && (isLong ==>
                  var n, id := |x| - 2, LittleEndian(x, 0);
                  var isRight := LittleEndian(x, n) == Crc(x[..n]);
                  && (r == Err(BadCrc) <==> !isRight)
                  && (r == Err(Id) <==> isRight && id > 2047)
                  && (r.Ok? <==> isRight && id <= 2047)
                  && (r.Ok? ==> && r.value.id as int == id && r.value.len == x[2]
                                && forall k :: 0 <= k < 8 ==> r.value.data[k] == if k < x[2] then x[3 + k] else 0))
  {
    hide Crc;
  }

  lemma AsReadIsPadded(f: Frame)
    requires IsEncodable(f)
    ensures IsPadded(f) <==> f == AsRead(f)
  {
  }

  /** A message that is accepted is the encoding of the frame read from it, and of no other padded one. */
  lemma PduIsExact(x: seq<Byte>, f: Frame)
    ensures DecodePdu(x) == Ok(f) <==> IsEncodable(f) && IsPadded(f) && x == Pdu(f)
  {
    hide DecodePdu, Pdu, IsPadded;
    if IsEncodable(f) {
      PduIsRead(f);
      AsReadIsPadded(f);
    }
    if DecodePdu(x) == Ok(f) { OnlyPdusAreRead(x, f); }
  }

  /** What is sent is read back, with the bytes past its length set to zero. */
  lemma DecodeEncodePdu(f: Frame)
    requires IsEncodable(f)
    ensures DecodePdu(Pdu(f)) == Ok(AsRead(f))
    ensures DecodePdu(Pdu(f)) == Ok(f) <==> IsPadded(f)
  {
    PduIsRead(f);
    AsReadIsPadded(f);
    hide DecodePdu, Pdu, IsPadded;
  }

  /** A message with exactly one changed byte is refused. */
  lemma ChangedByteIsRefused(f: Frame, y: seq<Byte>, at: nat)
    requires IsEncodable(f) && |y| == |Pdu(f)| && at < |y| && y[at] != Pdu(f)[at]
    requires forall i :: 0 <= i < |y| && i != at ==> y[i] == Pdu(f)[i]
    ensures DecodePdu(y).Err?
  {
    var x, n := Pdu(f), 3 + f.len;
    PduParts(f);
    hide Low, High, Crc;
    if at < n {
      assert forall i :: 0 <= i < n ==> y[..n][i] == y[i] && x[..n][i] == x[i];
      ChangedByteIsDetected(x[..n], y[..n], at);
    } else {
      assert y[..n] == x[..n];
    }
  }

  // ---------- The line ----------

  /** The stuffed message and the zero that ends it. */
  function Framed(f: Frame): seq<Byte>
    requires IsEncodable(f)
  {
    Stuffed(Pdu(f)) + [0]
  }

  lemma FramedFits(f: Frame)
    requires IsEncodable(f)
    ensures |Stuffed(Pdu(f))| <= MAX_COBS_SIZE && |Framed(f)| == |Stuffed(Pdu(f))| + 1
    ensures Framed(f) == Stuffed(Pdu(f)) + [0]
  {
    PduParts(f);
    StuffedShape(Pdu(f));
    hide Stuffed, Crc, Pdu;
  }

  /** A frame takes seven bytes more than its payload, fifteen at most; the longest one fills all three buffers. */
  lemma SizesExactly(f: Frame)
    requires IsEncodable(f)
    ensures |Pdu(f)| == f.len + 5 && |Stuffed(Pdu(f))| == f.len + 6 && |Framed(f)| == f.len + 7 <= 15
    ensures f.len == 8 ==>
              |Pdu(f)| == MAX_PDU_SIZE && |Stuffed(Pdu(f))| == MAX_COBS_SIZE && |Framed(f)| == MAX_FRAMED_SIZE
  {
    PduParts(f);
    StuffedShape(Pdu(f));
    hide Stuffed, Crc, Pdu;
  }

  /** `encode_framed`. */
  method EncodeFramed(f: Frame, out: array<Byte>) returns (length: Option<nat>)
    requires out.Length == MAX_FRAMED_SIZE
    modifies out
    ensures length == if IsEncodable(f) then Some(|Framed(f)|) else None
    ensures if length.Some? then length.value <= out.Length && out[..length.value] == Framed(f)
            else out[..] == old(out[..])
  {
    var pdu := new Byte[MAX_PDU_SIZE](_ => 0);
    var n := EncodePdu(f, pdu);
    hide *;
    if n.Err? { return None; }
    FramedFits(f);
    var message := pdu[..n.value];
    var coded := Encode(message, out);
    out[coded.value] := 0;
    length := Some(coded.value + 1);
  }

  /** The bytes received since the last zero, and how often bytes were dropped. */
  datatype Line = Line(pending: seq<Byte>, dropped: int)

  /** The number of drops, as a 32-bit counter shows it. */
  function Dropped(count: int): int {
    count % 0x1_0000_0000
  }

  /** The frame that the bytes between two zeros hold, if any. */
  function Opened(pending: seq<Byte>): Option<Frame> {
    var x := Unstuffed(pending);
    if x.None? || x.value == [] || |x.value| > MAX_PDU_SIZE || DecodePdu(x.value).Err? then None
    else Some(DecodePdu(x.value).value)
  }

  function Next(line: Line, byte: Byte): Line {
    if byte == 0 then
      if line.pending == [] then line
      else Line([], if Opened(line.pending).None? then Dropped(line.dropped + 1) else line.dropped)
    else if |line.pending| >= MAX_COBS_SIZE then Line([], Dropped(line.dropped + 1))
    else line.(pending := line.pending + [byte])
  }

  function Out(line: Line, byte: Byte): Option<Frame> {
    if byte == 0 && line.pending != [] then Opened(line.pending) else None
  }

  /** `StreamDecoder`. */
  class StreamDecoder {
    const buffer: array<Byte>
    var len: nat
    var droppedCount: int

    ghost predicate Valid()
      reads this, buffer
    {
      buffer.Length == MAX_COBS_SIZE && len <= MAX_COBS_SIZE && HasNoZero(buffer[..len])
    }

    ghost function Current(): Line
      requires Valid()
      reads this, buffer
    {
      Line(buffer[..len], droppedCount)
    }

    constructor ()
      ensures Valid() && fresh(buffer) && Current() == Line([], 0)
    {
      buffer := new Byte[MAX_COBS_SIZE](_ => 0);
      len, droppedCount := 0, 0;
    }

    method PushByte(byte: Byte) returns (frame: Option<Frame>)
      requires Valid()
      modifies this, buffer
      ensures Valid() && Current() == Next(old(Current()), byte) && frame == Out(old(Current()), byte)
    {
      hide Unstuffed, DecodePdu;
      if byte == 0 {
        if len == 0 { return None; }
        var pdu := new Byte[MAX_PDU_SIZE](_ => 0);
        var n := Decode(buffer[..len], pdu);
        frame := None;
        if n.Some? && n.value > 0 {
          var decoded := DecodePdu(pdu[..n.value]);
          if decoded.Ok? { frame := Some(decoded.value); }
        }
        len := 0;
        if frame.None? { droppedCount := (droppedCount + 1) % 0x1_0000_0000; }
        return;
      }
      frame := None;
      if len >= buffer.Length {
        droppedCount := (droppedCount + 1) % 0x1_0000_0000;
        len := 0;
        return;
      }
      buffer[len] := byte;
      len := len + 1;
    }
  }

  /** The line after a stream of bytes. */
  function After(line: Line, stream: seq<Byte>): Line {
    if stream == [] then line else Next(After(line, stream[..|stream| - 1]), stream[|stream| - 1])
  }

  /** The frames found in a stream of bytes. */
  function Found(line: Line, stream: seq<Byte>): seq<Frame> {
    if stream == [] then []
    else
      var before, byte := stream[..|stream| - 1], stream[|stream| - 1];
      var out := Out(After(line, before), byte);
      Found(line, before) + if out.Some? then [out.value] else []
  }

  /** No zero is ever pending, so the decoder never gets one. */
  lemma {:induction false} PendingHasNoZero(line: Line, stream: seq<Byte>)
    requires HasNoZero(line.pending)
    ensures HasNoZero(After(line, stream).pending)
  {
    if stream != [] {
      PendingHasNoZero(line, stream[..|stream| - 1]);
      hide After, Opened, Dropped;
    }
  }

  /** So on the line only a run whose last block ends short is no coding. */
  lemma OnlyShortRunsAreRefused(stream: seq<Byte>)
    ensures var pending := After(Line([], 0), stream).pending; Unstuffed(pending).None? <==> EndsShort(pending)
  {
    PendingHasNoZero(Line([], 0), stream);
    ZeroFreeRefusal(After(Line([], 0), stream).pending);
    hide After, Unstuffed, EndsShort;
  }

  lemma {:induction false} StreamMore(line: Line, a: seq<Byte>, b: seq<Byte>)
    ensures After(line, a + b) == After(After(line, a), b)
    ensures Found(line, a + b) == Found(line, a) + Found(After(line, a), b)
  {
    if b == [] {
      ConcatNil(a);
      ConcatNil(Found(line, a));
    } else {
      var init, byte := b[..|b| - 1], b[|b| - 1];
      assert b == init + [byte];
      Associate(a, init, [byte]);
      StreamMore(line, a, init);
      hide *;
      StreamLast(line, a + init, byte);
      StreamLast(After(line, a), init, byte);
      Associate(Found(line, a), Found(After(line, a), init), Given(After(After(line, a), init), byte));
    }
  }

  /** The frame given out at a byte, as a list. */
  function Given(line: Line, byte: Byte): seq<Frame> {
    if Out(line, byte).Some? then [Out(line, byte).value] else []
  }

  lemma StreamLast(line: Line, a: seq<Byte>, byte: Byte)
    ensures After(line, a + [byte]) == Next(After(line, a), byte)
    ensures Found(line, a + [byte]) == Found(line, a) + Given(After(line, a), byte)
  {
    assert (a + [byte])[..|a|] == a;
    hide Next, Out;
  }

  // ---------- The stream, cut at its zeros ----------

  /** The bytes since the last zero. */
  function Rest(stream: seq<Byte>): seq<Byte> {
    if stream == [] || stream[|stream| - 1] == 0 then [] else Rest(stream[..|stream| - 1]) + [stream[|stream| - 1]]
  }

  /** The runs of bytes that a zero has ended. */
  function Runs(stream: seq<Byte>): seq<seq<Byte>> {
    if stream == [] then []
    else
      var before := stream[..|stream| - 1];
      Runs(before) + if stream[|stream| - 1] == 0 then [Rest(before)] else []
  }

  /** What the buffer keeps of a run: every fifteenth byte drops itself and the fourteen before. */
  function Kept(run: seq<Byte>): seq<Byte> {
    run[|run| / 15 * 15..]
  }

  function FrameOf(run: seq<Byte>): seq<Frame> {
    if Kept(run) == [] || Opened(Kept(run)).None? then [] else [Opened(Kept(run)).value]
  }

  function FramesOf(runs: seq<seq<Byte>>): seq<Frame> {
    if runs == [] then [] else FramesOf(runs[..|runs| - 1]) + FrameOf(runs[|runs| - 1])
  }

  /** How often bytes of a run are dropped: at each overflow, and at the end if no frame is kept. */
  function DropsIn(run: seq<Byte>): nat {
    |run| / 15 + if Kept(run) != [] && Opened(Kept(run)).None? then 1 else 0
  }

  function DropsOf(runs: seq<seq<Byte>>): nat {
    if runs == [] then 0 else DropsOf(runs[..|runs| - 1]) + DropsIn(runs[|runs| - 1])
  }

  /** The line when these runs have ended and `rest` has not. */
  function LineOf(runs: seq<seq<Byte>>, rest: seq<Byte>): Line {
    Line(Kept(rest), Dropped(DropsOf(runs) + |rest| / 15))
  }

  lemma DroppedMore(count: int, more: int)
    ensures Dropped(Dropped(count) + more) == Dropped(count + more)
  {
  }

  lemma EndRun(runs: seq<seq<Byte>>, rest: seq<Byte>)
    ensures Next(LineOf(runs, rest), 0) == LineOf(runs + [rest], [])
    ensures Given(LineOf(runs, rest), 0) == FrameOf(rest) && FramesOf(runs + [rest]) == FramesOf(runs) + FrameOf(rest)
  {
    assert (runs + [rest])[..|runs|] == runs;
    DroppedMore(DropsOf(runs) + |rest| / 15, 1);
    hide Opened, Dropped;
    assert DropsOf(runs + [rest]) == DropsOf(runs) + DropsIn(rest);
    assert Kept([]) == [];
  }

  lemma LongerRun(runs: seq<seq<Byte>>, rest: seq<Byte>, byte: Byte)
    requires byte != 0
    ensures Next(LineOf(runs, rest), byte) == LineOf(runs, rest + [byte]) && Given(LineOf(runs, rest), byte) == []
  {
    var n, k := |rest| % 15, |rest| / 15;
    assert |rest| == 15 * k + n && |Kept(rest)| == n;
    if n == 14 {
      assert |rest + [byte]| / 15 == k + 1 && Kept(rest + [byte]) == [];
      DroppedMore(DropsOf(runs) + k, 1);
    } else {
      assert |rest + [byte]| / 15 == k && Kept(rest + [byte]) == Kept(rest) + [byte];
    }
    hide Dropped, DropsOf;
  }

  lemma NothingYet()
    ensures LineOf([], []) == Line([], 0)
  {
  }

  /**
   Pushing any stream byte by byte finds the frames of its runs between zeros, in order,
   and keeps the unfinished run; the drop counter counts, modulo 2^32, what was dropped.
   */
  lemma {:induction false} StreamIsItsRuns(stream: seq<Byte>)
    ensures Found(Line([], 0), stream) == FramesOf(Runs(stream))
    ensures After(Line([], 0), stream) == LineOf(Runs(stream), Rest(stream))
  {
    if stream == [] {
      NothingYet();
    } else {
      var before, byte := stream[..|stream| - 1], stream[|stream| - 1];
      var runs, rest := Runs(before), Rest(before);
      StreamIsItsRuns(before);
      assert stream == before + [byte];
      StreamLast(Line([], 0), before, byte);
      hide LineOf, FramesOf, After, Found, Next, Given;
      assert Runs(stream) == runs + if byte == 0 then [rest] else [];
      assert Rest(stream) == if byte == 0 then [] else rest + [byte];
      hide *;
      if byte == 0 {
        EndRun(runs, rest);
      } else {
        LongerRun(runs, rest, byte);
        ConcatNil(runs);
        ConcatNil(FramesOf(runs));
      }
    }
  }

  /** The drop counter has 32 bits: a drop for every fifteen bytes without a zero, and for every run without a frame. */
  lemma DropsExactly(stream: seq<Byte>)
    ensures After(Line([], 0), stream).dropped == (DropsOf(Runs(stream)) + |Rest(stream)| / 15) % 4294967296
  {
    StreamIsItsRuns(stream);
    hide After, DropsOf, Kept;
  }

  // ---------- Frames on the line ----------

  /** The frames as they are read back: the bytes past their length set to zero. */
  function Read(frames: seq<Frame>): seq<Frame>
    requires forall f :: f in frames ==> IsEncodable(f)
  {
    if frames == [] then []
    else
      var f := frames[|frames| - 1];
      assert f in frames;
      Read(frames[..|frames| - 1]) + [AsRead(f)]
  }

  function FramedAll(frames: seq<Frame>): seq<Byte>
    requires forall f :: f in frames ==> IsEncodable(f)
  {
    if frames == [] then [] else FramedAll(frames[..|frames| - 1]) + Framed(frames[|frames| - 1])
  }

  lemma OpenedStuffed(f: Frame)
    requires IsEncodable(f)
    ensures var run := Stuffed(Pdu(f));
            && HasNoZero(run) && 0 < |run| <= MAX_COBS_SIZE
            && Opened(run) == Some(AsRead(f))
  {
    PduParts(f);
    StuffedShape(Pdu(f));
    UnstuffedStuffed(Pdu(f));
    DecodeEncodePdu(f);
    hide Stuffed, Unstuffed, DecodePdu, Crc;
  }

  lemma {:induction false} Fill(line: Line, run: seq<Byte>)
    requires HasNoZero(run) && |line.pending| + |run| <= MAX_COBS_SIZE
    ensures After(line, run) == line.(pending := line.pending + run) && Found(line, run) == []
  {
    if run != [] {
      var last := |run| - 1;
      Fill(line, run[..last]);
      assert run == run[..last] + [run[last]];
      StreamLast(line, run[..last], run[last]);
    }
  }

  lemma OneFrame(dropped: int, f: Frame)
    requires IsEncodable(f)
    ensures After(Line([], dropped), Framed(f)) == Line([], dropped)
    ensures Found(Line([], dropped), Framed(f)) == [AsRead(f)]
  {
    var run := Stuffed(Pdu(f));
    OpenedStuffed(f);
    hide Stuffed, Opened, Pdu;
    Fill(Line([], dropped), run);
    StreamLast(Line([], dropped), run, 0);
    ConcatNil(run);
    hide After, Found;
  }

  /** Frames sent between zeros are all found, in order, and nothing is dropped. */
  lemma {:induction false} FramesComeThrough(dropped: int, frames: seq<Frame>)
    requires forall f :: f in frames ==> IsEncodable(f)
    ensures After(Line([], dropped), FramedAll(frames)) == Line([], dropped)
    ensures Found(Line([], dropped), FramedAll(frames)) == Read(frames)
  {
    if frames != [] {
      var before, f := frames[..|frames| - 1], frames[|frames| - 1];
      FramesComeThrough(dropped, before);
      OneFrame(dropped, f);
      StreamMore(Line([], dropped), FramedAll(before), Framed(f));
      hide After, Found, Framed;
    }
  }

  /** Whatever came before, the first zero puts the decoder back in step: every frame after it is found. */
  lemma Resynchronizes(line: Line, noise: seq<Byte>, frames: seq<Frame>)
    requires forall f :: f in frames ==> IsEncodable(f)
    ensures After(line, noise + [0] + FramedAll(frames)) == After(line, noise + [0])
    ensures Found(line, noise + [0] + FramedAll(frames)) == Found(line, noise + [0]) + Read(frames)
  {
    StreamLast(line, noise, 0);
    StreamMore(line, noise + [0], FramedAll(frames));
    FramesComeThrough(After(line, noise + [0]).dropped, frames);
    assert After(line, noise + [0]).pending == [];
    hide After, Found, FramedAll, Read;
  }

  /**
   A zero is not needed to be back in step: right after an overflow, a frame is found at the
   end of an overlong run of bytes. So not every frame found follows a zero.
   */
  lemma OverlongRunStillEndsInFrame(noise: seq<Byte>, f: Frame)
    requires IsEncodable(f) && HasNoZero(noise) && |noise| == 15
    ensures Found(Line([], 0), noise + Framed(f)) == [AsRead(f)]
    ensures After(Line([], 0), noise + Framed(f)) == Line([], 1)
  {
    assert noise == noise[..14] + [noise[14]];
    Fill(Line([], 0), noise[..14]);
    StreamLast(Line([], 0), noise[..14], noise[14]);
    assert After(Line([], 0), noise) == Line([], 1) && Found(Line([], 0), noise) == [];
    OneFrame(1, f);
    StreamMore(Line([], 0), noise, Framed(f));
    hide After, Found, Framed;
  }
}
