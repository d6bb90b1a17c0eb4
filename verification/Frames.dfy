/**
 The log of the temperature probe's frames: the wire format, the frames lost between
 two sequence numbers, and a sliding window of the recent measurements.
 */
module Frames {
  import opened Bytes
  import opened Prelude

  const FRAME_SIZE := 12
  const NO_TEMPERATURE: I16 := -0x8000
  const STATUS_OK := 1

  /** A frame as the probe sends it, with its temperature in hundredths of a degree. */
  datatype Wire = Wire(seq_: U16, ms: U16, a0: I16, a1: I16, centiC: I16, status: Byte)

  datatype Frame = Frame(seq_: U16, probeMs: U16, a0: I16, a1: I16, celsius: Option<real>, status: Byte)

  datatype Error = TooShort | UnknownStatus

  function Signed(low: Byte, high: Byte): I16 {
    var v := Unsigned(low, high);
    if v < 0x8000 then v else v - 0x1_0000
  }

  /** The 16 bits of a signed number, read as an unsigned one. */
  function Word(v: I16): U16 {
    if v >= 0 then v else v + 0x1_0000
  }

  /** The probe's `encode`: six little-endian fields and a reserved byte. */
  function Encode(w: Wire): (data: seq<Byte>)
    ensures |data| == FRAME_SIZE
  {
    var a0, a1, centiC := Word(w.a0), Word(w.a1), Word(w.centiC);
    [Low(w.seq_), High(w.seq_), Low(w.ms), High(w.ms), Low(a0), High(a0), Low(a1), High(a1),
     Low(centiC), High(centiC), w.status, 0]
  }

  function Celsius(centiC: I16): Option<real> {
    if centiC == NO_TEMPERATURE then None else Some(centiC as real / 100.0)
  }

  /** What the script keeps of a frame sent. */
  function FrameOf(w: Wire): Frame {
    Frame(w.seq_, w.ms, w.a0, w.a1, Celsius(w.centiC), w.status)
  }

  /** `decode_frame`. */
  function Decode(data: seq<Byte>): Result<Frame, Error> {
    if |data| < FRAME_SIZE then Err(TooShort)
    else if data[10] > 3 then Err(UnknownStatus)
    else Ok(Frame(Unsigned(data[0], data[1]), Unsigned(data[2], data[3]), Signed(data[4], data[5]),
                  Signed(data[6], data[7]), Celsius(Signed(data[8], data[9])), data[10]))
  }

  /** `Frame.ratio`: the thermistor's resistance over the fixed one. */
  function Ratio(f: Frame): Option<real> {
    if f.status != STATUS_OK || f.a0 <= f.a1 then None else Some(f.a1 as real / (f.a0 - f.a1) as real)
  }

  /** `lost_frames`. */
  function LostFrames(previous: Option<U16>, next: U16): U16 {
    if previous.None? then 0 else (next - previous.value - 1) % 0x1_0000
  }

  datatype Point = Point(t: real, celsius: real, ratio: real)

  /** A line of the log, with its temperature in hundredths of a degree. */
  datatype Row = Row(unixMs: int, seq_: U16, probeMs: U16, a0: I16, a1: I16, centiC: Option<int>, status: Byte)

  datatype Log = Log(
    window: seq<Point>, previousSeq: Option<U16>, frames: nat, lost: nat, rejected: nat,
    last: Option<Frame>, rows: seq<Row>)

  const EMPTY := Log([], None, 0, 0, 0, None, [])

  function RowOf(t: real, f: Frame): Row {
    Row(RoundHalfEven(t * 1000.0), f.seq_, f.probeMs, f.a0, f.a1,
        if f.celsius.None? then None else Some(RoundHalfEven(f.celsius.value * 100.0)), f.status)
  }

  /** The point a frame adds to the window, if its temperature and its ratio are known. */
  function PointOf(t: real, f: Frame): seq<Point> {
    if Ratio(f).Some? && f.celsius.Some? then [Point(t, f.celsius.value, Ratio(f).value)] else []
  }

  /** The window without the leading points older than `windowS` at time `now`. */
  function DropOld(window: seq<Point>, now: real, windowS: real): seq<Point> {
    if window != [] && now - window[0].t > windowS then DropOld(window[1..], now, windowS) else window
  }

  function Received(log: Log, windowS: real, t: real, data: seq<Byte>): Log {
    match Decode(data)
    case Err(_) => log.(rejected := log.rejected + 1)
    case Ok(f) =>
      Log(DropOld(log.window + PointOf(t, f), t, windowS), Some(f.seq_), log.frames + 1,
          log.lost + LostFrames(log.previousSeq, f.seq_), log.rejected, Some(f), log.rows + [RowOf(t, f)])
  }

  datatype Event = Data(t: real, data: seq<Byte>) | Reconnected

  function After(log: Log, windowS: real, e: Event): Log {
    match e
    case Data(t, data) => Received(log, windowS, t, data)
    case Reconnected => log.(previousSeq := None)
  }

  function Run(events: seq<Event>, windowS: real): Log {
    if events == [] then EMPTY else After(Run(events[..|events| - 1], windowS), windowS, events[|events| - 1])
  }

  /** `Recorder`. */
  class Recorder {
    const windowS: real
    var window: seq<Point>
    var previousSeq: Option<U16>
    var frames: nat
    var lost: nat
    var rejected: nat
    var last: Option<Frame>
    var rows: seq<Row>

    function Current(): Log
      reads this
    {
      Log(window, previousSeq, frames, lost, rejected, last, rows)
    }

    constructor (windowS: real)
      ensures this.windowS == windowS && Current() == EMPTY
    {
      this.windowS := windowS;
      window, rows := [], [];
      previousSeq, last := None, None;
      frames, lost, rejected := 0, 0, 0;
    }

    method Reconnect()
      modifies this
      ensures Current() == After(old(Current()), windowS, Reconnected)
    {
      previousSeq := None;
    }

    method OnData(receivedS: real, data: seq<Byte>)
      modifies this
      ensures Current() == Received(old(Current()), windowS, receivedS, data)
      ensures Decode(data).Err? ==> unchanged(this`window) && unchanged(this`frames) && unchanged(this`lost)
                                    && unchanged(this`rows) && unchanged(this`previousSeq)
                                    && rejected == old(rejected) + 1
    {
      var decoded := Decode(data);
      if decoded.Err? {
        rejected := rejected + 1;
        return;
      }
      var frame := decoded.value;
      lost := lost + LostFrames(previousSeq, frame.seq_);
      previousSeq := Some(frame.seq_);
      frames := frames + 1;
      last := Some(frame);
      rows := rows + [RowOf(receivedS, frame)];
      var ratio := Ratio(frame);
      ghost var points := window;
      if ratio.Some? && frame.celsius.Some? {
        window := window + [Point(receivedS, frame.celsius.value, ratio.value)];
      }
      assert window == points + PointOf(receivedS, frame);
      while window != [] && receivedS - window[0].t > windowS
        invariant DropOld(window, receivedS, windowS) == DropOld(points + PointOf(receivedS, frame), receivedS, windowS)
        invariant Current() == Received(old(Current()), windowS, receivedS, data).(window := window)
        decreases |window|
      {
        window := window[1..];
      }
    }
  }

  // ---------- The wire format ----------

  lemma SignedBytes(v: I16)
    ensures Signed(Low(Word(v)), High(Word(v))) == v
  {
    UnsignedBytes(Word(v));
  }

  /** Whatever the probe sends is read back field by field, with any bytes after it. */
  lemma DecodeEncode(w: Wire, more: seq<Byte>)
    requires w.status <= 3
    ensures Decode(Encode(w) + more) == Ok(FrameOf(w))
  {
    UnsignedBytes(w.seq_);
    UnsignedBytes(w.ms);
    SignedBytes(w.a0);
    SignedBytes(w.a1);
    SignedBytes(w.centiC);
    hide Low, High, Signed, Unsigned;
  }

  lemma BytesOf(low: Byte, high: Byte)
    ensures Low(Unsigned(low, high)) == Low(Word(Signed(low, high))) == low
    ensures High(Unsigned(low, high)) == High(Word(Signed(low, high))) == high
  {
    BytesOfUnsigned(low, high);
  }

  /** The message starts with the encoding of the frame, but for the reserved byte. */
  predicate Carries(data: seq<Byte>, w: Wire) {
    w.status <= 3 && |data| >= FRAME_SIZE && Encode(w)[..11] == data[..11]
  }

  function WireOf(data: seq<Byte>): Wire
    requires |data| >= FRAME_SIZE
  {
    Wire(Unsigned(data[0], data[1]), Unsigned(data[2], data[3]), Signed(data[4], data[5]), Signed(data[6], data[7]),
         Signed(data[8], data[9]), data[10])
  }

  /** A message is accepted exactly when it carries a frame, and only that one is read from it. */
  lemma DecodesWhatIsCarried(data: seq<Byte>, f: Frame)
    ensures Decode(data) == Ok(f) <==> exists w :: Carries(data, w) && f == FrameOf(w)
  {
    if |data| >= FRAME_SIZE && data[10] <= 3 {
      assert Carries(data, WireOf(data)) by {
        forall k | k == 0 || k == 2 || k == 4 || k == 6 || k == 8 {
          BytesOf(data[k], data[k + 1]);
        }
        hide Low, High, Signed, Unsigned;
      }
    }
    forall w | Carries(data, w)
      ensures w == WireOf(data) && data[10] <= 3
    {
      var e := Encode(w);
      assert forall k :: 0 <= k < 11 ==> e[k] == e[..11][k] == data[..11][k] == data[k];
      UnsignedBytes(w.seq_);
      UnsignedBytes(w.ms);
      SignedBytes(w.a0);
      SignedBytes(w.a1);
      SignedBytes(w.centiC);
      hide Low, High, Signed, Unsigned;
    }
    hide Carries, Unsigned, Signed, Celsius;
  }

  // ---------- The window ----------

  /** The frames accepted so far, with the times they were received. */
  function Accepted(events: seq<Event>): seq<(real, Frame)> {
    if events == [] then []
    else
      var before := Accepted(events[..|events| - 1]);
      var e := events[|events| - 1];
      if e.Data? && Decode(e.data).Ok? then before + [(e.t, Decode(e.data).value)] else before
  }

  function Points(accepted: seq<(real, Frame)>): seq<Point> {
    if accepted == [] then []
    else
      var (t, f) := accepted[|accepted| - 1];
      Points(accepted[..|accepted| - 1]) + PointOf(t, f)
  }

  /** The points at most `windowS` old at time `now`. */
  function Recent(points: seq<Point>, now: real, windowS: real): seq<Point> {
    if points == [] then []
    else (if now - points[0].t <= windowS then [points[0]] else []) + Recent(points[1..], now, windowS)
  }

  /** Frames are accepted in the order in which they were received. */
  predicate InOrder(accepted: seq<(real, Frame)>) {
    forall i, j :: 0 <= i < j < |accepted| ==> accepted[i].0 <= accepted[j].0
  }

  predicate AreSorted(points: seq<Point>, upTo: real) {
    && (forall i :: 0 <= i < |points| ==> points[i].t <= upTo)
    && forall i, j :: 0 <= i < j < |points| ==> points[i].t <= points[j].t
  }

  lemma {:induction false} RecentOfConcat(a: seq<Point>, b: seq<Point>, now: real, windowS: real)
    ensures Recent(a + b, now, windowS) == Recent(a, now, windowS) + Recent(b, now, windowS)
  {
    if a == [] {
      assert a + b == b;
    } else {
      assert (a + b)[1..] == a[1..] + b && (a + b)[0] == a[0];
      RecentOfConcat(a[1..], b, now, windowS);
      Associate(if now - a[0].t <= windowS then [a[0]] else [], Recent(a[1..], now, windowS), Recent(b, now, windowS));
    }
  }

  lemma {:induction false} RecentOfRecent(s: seq<Point>, before: real, now: real, windowS: real)
    requires before <= now
    ensures Recent(Recent(s, before, windowS), now, windowS) == Recent(s, now, windowS)
  {
    if s != [] {
      var head := if before - s[0].t <= windowS then [s[0]] else [];
      RecentOfConcat(head, Recent(s[1..], before, windowS), now, windowS);
      RecentOfRecent(s[1..], before, now, windowS);
    }
  }

  lemma {:induction false} RecentIsPart(s: seq<Point>, now: real, windowS: real, p: Point)
    requires p in Recent(s, now, windowS)
    ensures p in s
  {
    if p in Recent(s[1..], now, windowS) { RecentIsPart(s[1..], now, windowS, p); }
  }

  lemma {:induction false} RecentIsSorted(s: seq<Point>, upTo: real, now: real, windowS: real)
    requires AreSorted(s, upTo)
    ensures AreSorted(Recent(s, now, windowS), upTo)
  {
    if s != [] {
      var rest := Recent(s[1..], now, windowS);
      RecentIsSorted(s[1..], upTo, now, windowS);
      forall i | 0 <= i < |rest|
        ensures s[0].t <= rest[i].t
      {
        RecentIsPart(s[1..], now, windowS, rest[i]);
        var k :| 0 <= k < |s[1..]| && s[1..][k] == rest[i];
        assert s[k + 1] == rest[i];
      }
    }
  }

  lemma {:induction false} RecentKeepsAll(s: seq<Point>, now: real, windowS: real)
    requires forall i :: 0 <= i < |s| ==> now - s[i].t <= windowS
    ensures Recent(s, now, windowS) == s
  {
    if s != [] { RecentKeepsAll(s[1..], now, windowS); }
  }

  lemma {:induction false} DropOldIsRecent(s: seq<Point>, upTo: real, now: real, windowS: real)
    requires AreSorted(s, upTo)
    ensures DropOld(s, now, windowS) == Recent(s, now, windowS)
  {
    if s != [] {
      if now - s[0].t > windowS { DropOldIsRecent(s[1..], upTo, now, windowS); }
      else { RecentKeepsAll(s, now, windowS); }
    }
  }

  lemma {:induction false} PointsAreSorted(accepted: seq<(real, Frame)>, upTo: real)
    requires InOrder(accepted) && (accepted != [] ==> accepted[|accepted| - 1].0 <= upTo)
    ensures AreSorted(Points(accepted), upTo)
  {
    if accepted != [] {
      var last := |accepted| - 1;
      PointsAreSorted(accepted[..last], accepted[last].0);
    }
  }

  /** The time of the last frame accepted. */
  function LastTime(accepted: seq<(real, Frame)>): real
    requires accepted != []
  {
    accepted[|accepted| - 1].0
  }

  lemma WindowStep(accepted: seq<(real, Frame)>, t: real, f: Frame, windowS: real)
    requires InOrder(accepted + [(t, f)])
    ensures var window := if accepted == [] then [] else Recent(Points(accepted), LastTime(accepted), windowS);
            DropOld(window + PointOf(t, f), t, windowS) == Recent(Points(accepted + [(t, f)]), t, windowS)
  {
    var all := accepted + [(t, f)];
    assert all[..|accepted|] == accepted && all[|accepted|] == (t, f);
    if accepted == [] {
      DropOldIsRecent(PointOf(t, f), t, t, windowS);
      ConcatNil(PointOf(t, f));
    } else {
      var points, before := Points(accepted), LastTime(accepted);
      assert all[|accepted| - 1].0 == before;
      PointsAreSorted(accepted, before);
      RecentIsSorted(points, before, before, windowS);
      var window := Recent(points, before, windowS);
      assert AreSorted(window + PointOf(t, f), t);
      DropOldIsRecent(window + PointOf(t, f), t, t, windowS);
      RecentOfConcat(window, PointOf(t, f), t, windowS);
      RecentOfRecent(points, before, t, windowS);
      RecentOfConcat(points, PointOf(t, f), t, windowS);
    }
    hide Recent, DropOld;
  }

  /**
   When frames are received in order, the window holds exactly the usable points at most
   `windowS` older than the last frame accepted.
   */
  lemma {:induction false} WindowIsRecent(events: seq<Event>, windowS: real)
    requires InOrder(Accepted(events))
    ensures var accepted := Accepted(events);
            Run(events, windowS).window
            == if accepted == [] then [] else Recent(Points(accepted), LastTime(accepted), windowS)
  {
    if events != [] {
      var last := |events| - 1;
      var before, e := Accepted(events[..last]), events[last];
      assert InOrder(before) by {
        forall i, j | 0 <= i < j < |before|
          ensures before[i].0 <= before[j].0
        {
          assert Accepted(events)[i] == before[i] && Accepted(events)[j] == before[j];
        }
      }
      WindowIsRecent(events[..last], windowS);
      if e.Data? && Decode(e.data).Ok? { WindowStep(before, e.t, Decode(e.data).value, windowS); }
      hide Recent, DropOld, Points, PointOf, Decode;
    }
  }

  // ---------- The counters ----------

  /** Nothing has been accepted since the log started or the link was last reopened. */
  predicate IsNewLink(events: seq<Event>) {
    events == [] ||
    var e := events[|events| - 1];
    e.Reconnected? || (Decode(e.data).Err? && IsNewLink(events[..|events| - 1]))
  }

  /** The lists with one more number: in a list of its own over a new link, else in the last one. */
  function NextLinks(links: seq<seq<U16>>, isNew: bool, next: U16): seq<seq<U16>>
    requires isNew || links != []
  {
    if isNew then links + [[next]] else links[|links| - 1 := links[|links| - 1] + [next]]
  }

  /** The sequence numbers accepted over each link, one list for each link that delivered any. */
  function Links(events: seq<Event>): (links: seq<seq<U16>>)
    ensures forall k :: 0 <= k < |links| ==> links[k] != []
    ensures !IsNewLink(events) ==> links != []
  {
    if events == [] then []
    else
      var before := events[..|events| - 1];
      var links, e := Links(before), events[|events| - 1];
      if e.Reconnected? || Decode(e.data).Err? then links
      else NextLinks(links, IsNewLink(before), Decode(e.data).value.seq_)
  }

  /** How many frames the links delivered. */
  function Delivered(links: seq<seq<U16>>): nat {
    if links == [] then 0 else Delivered(links[..|links| - 1]) + |links[|links| - 1]|
  }

  /** The losses counted inside one link. */
  function LostInLink(link: seq<U16>): nat {
    if |link| <= 1 then 0
    else LostInLink(link[..|link| - 1]) + LostFrames(Some(link[|link| - 2]), link[|link| - 1])
  }

  function LostInLinks(links: seq<seq<U16>>): nat {
    if links == [] then 0 else LostInLinks(links[..|links| - 1]) + LostInLink(links[|links| - 1])
  }

  /** How many messages were refused. */
  function Refused(events: seq<Event>): nat {
    if events == [] then 0
    else
      var e := events[|events| - 1];
      Refused(events[..|events| - 1]) + if e.Data? && Decode(e.data).Err? then 1 else 0
  }

  function RowsOf(accepted: seq<(real, Frame)>): seq<Row> {
    if accepted == [] then []
    else
      var (t, f) := accepted[|accepted| - 1];
      RowsOf(accepted[..|accepted| - 1]) + [RowOf(t, f)]
  }

  /** The number before the next one over the same link. */
  function PreviousIn(links: seq<seq<U16>>, isNew: bool): Option<U16>
    requires isNew || (links != [] && links[|links| - 1] != [])
  {
    if isNew then None
    else
      var link := links[|links| - 1];
      Some(link[|link| - 1])
  }

  lemma NewLinkCounts(links: seq<seq<U16>>, next: U16)
    ensures Delivered(links + [[next]]) == Delivered(links) + 1 && LostInLinks(links + [[next]]) == LostInLinks(links)
  {
    assert (links + [[next]])[..|links|] == links;
    hide LostFrames;
  }

  lemma LongerLinkLosses(link: seq<U16>, next: U16)
    requires link != []
    ensures LostInLink(link + [next]) == LostInLink(link) + LostFrames(Some(link[|link| - 1]), next)
  {
    assert (link + [next])[..|link|] == link;
    hide LostFrames;
  }

  lemma LastLinkCounts(links: seq<seq<U16>>, link: seq<U16>)
    requires links != []
    ensures var last := |links| - 1;
            && Delivered(links[last := link]) == Delivered(links[..last]) + |link|
            && LostInLinks(links[last := link]) == LostInLinks(links[..last]) + LostInLink(link)
  {
    assert links[|links| - 1 := link][..|links| - 1] == links[..|links| - 1];
    hide LostInLink;
  }

  lemma NextCounts(links: seq<seq<U16>>, isNew: bool, next: U16)
    requires isNew || (links != [] && links[|links| - 1] != [])
    ensures Delivered(NextLinks(links, isNew, next)) == Delivered(links) + 1
    ensures LostInLinks(NextLinks(links, isNew, next))
         == LostInLinks(links) + LostFrames(PreviousIn(links, isNew), next)
  {
    if isNew {
      NewLinkCounts(links, next);
      hide LostInLinks, Delivered;
    } else {
      var last := |links| - 1;
      LongerLinkLosses(links[last], next);
      LastLinkCounts(links, links[last] + [next]);
      hide LostFrames, LostInLink;
    }
  }

  /** The log has one row for each frame accepted, and remembers the last one. */
  lemma {:induction false} RunRows(events: seq<Event>, windowS: real)
    ensures var log, accepted := Run(events, windowS), Accepted(events);
            && log.rows == RowsOf(accepted) && log.frames == |accepted|
            && log.last == if accepted == [] then None else Some(accepted[|accepted| - 1].1)
  {
    if events != [] {
      var before, e := events[..|events| - 1], events[|events| - 1];
      RunRows(before, windowS);
      var accepted := Accepted(events);
      assert e.Data? && Decode(e.data).Ok? ==> accepted[..|accepted| - 1] == Accepted(before);
      hide Decode, RowOf, DropOld, PointOf, LostFrames;
    }
  }

  lemma {:induction false} RunPrevious(events: seq<Event>, windowS: real)
    ensures Run(events, windowS).previousSeq == PreviousIn(Links(events), IsNewLink(events))
  {
    if events != [] {
      RunPrevious(events[..|events| - 1], windowS);
      hide Decode, DropOld, PointOf, LostFrames, RowOf;
    }
  }

  /** The counters of every run, from the events alone. */
  lemma {:induction false} RunCounts(events: seq<Event>, windowS: real)
    ensures var log, links := Run(events, windowS), Links(events);
            log.frames == Delivered(links) && log.lost == LostInLinks(links) && log.rejected == Refused(events)
  {
    if events != [] {
      var before, e := events[..|events| - 1], events[|events| - 1];
      RunCounts(before, windowS);
      RunPrevious(before, windowS);
      if e.Data? && Decode(e.data).Ok? {
        NextCounts(Links(before), IsNewLink(before), Decode(e.data).value.seq_);
      }
      hide Delivered, LostInLinks, NextLinks, PreviousIn, LostFrames, Decode, RowOf, DropOld, PointOf;
    }
  }

  // ---------- Accounting ----------

  /** The counters behind the sequence numbers of one link: unbounded, and always rising. */
  predicate Counts(counters: seq<int>, link: seq<U16>) {
    && |counters| == |link| > 0
    && (forall i :: 0 <= i < |link| ==> counters[i] % 0x1_0000 == link[i])
    && forall i :: 0 < i < |counters| ==> counters[i - 1] < counters[i]
  }

  /** No step of the counter is so long that the sequence number laps. */
  predicate NeverLaps(counters: seq<int>) {
    forall i :: 0 < i < |counters| ==> counters[i] - counters[i - 1] <= 0x1_0000
  }

  /** The frames the probe numbered from the first one received to the last. */
  function Numbered(counters: seq<int>): int {
    if counters == [] then 0 else counters[|counters| - 1] - counters[0] + 1
  }

  function NumberedInAll(all: seq<seq<int>>): int {
    if all == [] then 0 else NumberedInAll(all[..|all| - 1]) + Numbered(all[|all| - 1])
  }

  lemma LostBetween(a: int, b: int)
    requires a < b
    ensures LostFrames(Some(a % 0x1_0000), b % 0x1_0000) <= b - a - 1
    ensures LostFrames(Some(a % 0x1_0000), b % 0x1_0000) == b - a - 1 <==> b - a <= 0x1_0000
  {
    assert (b % 0x1_0000 - a % 0x1_0000 - 1) % 0x1_0000 == (b - a - 1) % 0x1_0000;
  }

  lemma {:induction false} LinkAccount(counters: seq<int>, link: seq<U16>)
    requires Counts(counters, link)
    ensures |link| + LostInLink(link) <= Numbered(counters)
    ensures |link| + LostInLink(link) == Numbered(counters) <==> NeverLaps(counters)
  {
    if |link| > 1 {
      var last := |link| - 1;
      var c := counters[..last];
      LinkAccount(c, link[..last]);
      assert link[..last][last - 1] == link[last - 1];
      LostBetween(counters[last - 1], counters[last]);
      assert NeverLaps(counters) <==> NeverLaps(c) && counters[last] - counters[last - 1] <= 0x1_0000 by {
        if NeverLaps(counters) {
          assert forall i :: 0 < i < |c| ==> c[i] - c[i - 1] == counters[i] - counters[i - 1];
        }
      }
      hide LostFrames;
    }
  }

  lemma {:induction false} LinksAccount(all: seq<seq<int>>, links: seq<seq<U16>>)
    requires |all| == |links| && forall k :: 0 <= k < |all| ==> Counts(all[k], links[k])
    ensures Delivered(links) + LostInLinks(links) <= NumberedInAll(all)
    ensures Delivered(links) + LostInLinks(links) == NumberedInAll(all)
            <==> forall k :: 0 <= k < |all| ==> NeverLaps(all[k])
  {
    if all != [] {
      var last := |all| - 1;
      LinksAccount(all[..last], links[..last]);
      LinkAccount(all[last], links[last]);
      hide Counts, NeverLaps, LostInLink, Numbered;
    }
  }

  /**
   However the unbounded counters behind the sequence numbers rise, the frames counted and
   the losses counted never exceed the frames numbered over each link, and they add up to
   them exactly when no gap reaches past 65536.
   */
  lemma FrameAccounting(events: seq<Event>, windowS: real, all: seq<seq<int>>)
    requires |all| == |Links(events)| && forall k :: 0 <= k < |all| ==> Counts(all[k], Links(events)[k])
    ensures var log := Run(events, windowS);
            && log.frames + log.lost <= NumberedInAll(all)
            && (log.frames + log.lost == NumberedInAll(all) <==> forall k :: 0 <= k < |all| ==> NeverLaps(all[k]))
  {
    RunCounts(events, windowS);
    LinksAccount(all, Links(events));
  }
}
