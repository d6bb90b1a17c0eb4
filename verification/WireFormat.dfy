/**
 The probe's frames byte by byte, in plain arithmetic: what is on the wire, what is read
 from any message, and what the log and its window make of it.
 */
module WireFormat {
  import opened Bytes
  import opened Frames
  import opened Prelude

  /** The two's complement of sixteen bits. */
  function SignedAt(data: seq<Byte>, k: nat): int
    requires k + 1 < |data|
  {
    if data[k + 1] < 128 then LittleEndian(data, k) else LittleEndian(data, k) - 65536
  }

  /** Twelve bytes: five numbers of two bytes each, the status and a zero. */
  lemma OnTheWire(w: Wire)
    ensures var d := Encode(w);
            && |d| == 12 && LittleEndian(d, 0) == w.seq_ as int && LittleEndian(d, 2) == w.ms as int
            && SignedAt(d, 4) == w.a0 as int && SignedAt(d, 6) == w.a1 as int && SignedAt(d, 8) == w.centiC as int
            && d[10] == w.status && d[11] == 0
  {
  }

  /** A message is accepted exactly when it has twelve bytes and a status up to 3; each field is that at its place. */
  lemma DecodedExactly(data: seq<Byte>)
    ensures Decode(data).Ok? <==> |data| >= 12 && data[10] <= 3
    ensures Decode(data).Ok? ==>
              var f := Decode(data).value;
              && f.seq_ as int == LittleEndian(data, 0) && f.probeMs as int == LittleEndian(data, 2)
              && f.a0 as int == SignedAt(data, 4) && f.a1 as int == SignedAt(data, 6)
              && (f.celsius.None? <==> data[8] == 0 && data[9] == 128)
              && (f.celsius.Some? ==> 100.0 * f.celsius.value == SignedAt(data, 8) as real)
              && f.status == data[10]
  {
  }

  /**
   A frame adds a point to the window exactly when the probe read its thermistor, across a
   part of the supply only, and its temperature; the ratio is that of the parts.
   */
  lemma PointExactly(t: real, f: Frame)
    ensures PointOf(t, f) != [] <==> f.status == 1 && f.a0 > f.a1 && f.celsius.Some?
    ensures PointOf(t, f) != [] ==>
              && |PointOf(t, f)| == 1 && PointOf(t, f)[0].t == t
              && Some(PointOf(t, f)[0].celsius) == f.celsius
              && PointOf(t, f)[0].ratio * (f.a0 - f.a1) as real == f.a1 as real
  {
  }

  /** The line of the log repeats every field sent, with the time in the nearest millisecond, halves to even. */
  lemma RowIsWhatWasSent(t: real, w: Wire)
    ensures var r := RowOf(t, FrameOf(w));
            && r.seq_ == w.seq_ && r.probeMs == w.ms && r.a0 == w.a0 && r.a1 == w.a1 && r.status == w.status
            && r.centiC == (if w.centiC == -32768 then None else Some(w.centiC as int))
            && 1000.0 * t - 0.5 <= r.unixMs as real <= 1000.0 * t + 0.5
            && (r.unixMs % 2 == 1 ==> 1000.0 * t - 0.5 < r.unixMs as real < 1000.0 * t + 0.5)
  {
  }
}
