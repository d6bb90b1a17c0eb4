# Models and proofs for coffeeflow

This project models the parts of coffeeflow whose behaviour is hardest to see by reading
them, and proves what they are relied on for. `dafny verify dfyconfig.toml` checks all of it.

**Boards (`pcb/`).** `Lexing`, `JsonText`, `Numerals` and `Sexpr` model the S-expression
reader and printer of the board generators, down to the characters: the token regular
expression as a scanner, string atoms as JSON text (section 7 of RFC 8259), and Python's
decimal notation for numbers. `TokenText`, `JsonGrammar` and `NumeralGrammar` say which texts
these read, and as what, `NumeralText` and `PrintedText` what is printed. `RoundTrip` proves
for every tree exactly when printing and reading give it back; `Splice` proves what the
textual insertion of new zones into a saved board does; `StrictParser` models the exporter's
own reader and proves exactly which texts it accepts and that both readers agree, and
`LaxReader` which ones the generators' reader accepts; `Outline` proves that the outline check
by counting line ends accepts exactly the outlines made of closed walks.

**Captures (`firmware/analysis/`).** `Samples` is the vocabulary of the captures. `Shot` says
what one sample does to a shot summary, `ShotRecorder` is the loop with its variables;
`ShotSegments`, `ShotGaps`, `ShotMarks`, `ShotFlows`, `ShotDrips`, `ShotHeat` and `ShotCup`
prove what every run keeps, and what each result is of the capture. `CupMeans` models the
weighted means of the analysis script, and `MeanLaws` proves when there is one and what it is
worth; `PressureControl` and `Replay` the PI controller and its replay over a capture;
`WeightFlow` the sliding derivative; `Phases` the phase partition, the plot's own version of
it, and the energy sums; `InvalidRanges` the intervals without a valid signal; `LagFilter` and
`Preheat` the lag, the preheat debt and the anticipated heating of the boiler model, and
`HeatBalance` proves what its commands are worth; `Frames` and `WireFormat` the log of the
wireless probe.

**Serial line (`firmware/rust/protocol/`).** `Bytes`, `Crc16`, `Cobs` and `SerialFrames` model
the framing of CAN frames on the serial line and prove the round trip, exactly which codings
are refused, and what the stream decoder finds in any stream of bytes. `CrcBits` proves which
changes the checksum detects, and `FrameErrors` which changed messages are refused.

**Firmware update (`firmware/rust/sensors-logic/`).** `Crc32`, `Flash` and `FlashReceiver`
model the reception of a firmware image in blocks, with lost acknowledgements, failing writes
and a commit at the end, and prove when an image is committed, that replays leave no trace,
and that every image that fits is delivered. `FlashContents` says the same byte by byte, and
`Crc32Bits` which damaged images are never committed. `CheckValues` evaluates both checksums
at their published check value.

Code that updates variables is modelled by methods and classes with the source's own
variables, proved against functions that say what the result is; the lemmas are about those
functions. Floats of the captures are exact reals and NaN is `None`; floats in S-expressions
are exact decimals with Python's printed form.

## What the code does not do

Some statements in comments and some expected laws do not hold as they stand. In these cases
the model follows the code, and the exact condition, or an input that shows the difference, is
proved.

- A float that Python prints without a point does not survive a round trip: `0.00001` is
  printed `1e-05` and read back as a symbol (`RoundTrip.SmallFloatIsLost`; the exact condition
  is `RoundTrip.RoundTrip`).
- The generators' reader accepts unclosed and repeated lists (`StrictParser.LaxReaderAcceptsMore`).
- `plot_hf_capture.py:57-58` says that samples without a full window stay empty; the code only
  asks for one sample on each side (`WeightFlow.EdgesAreNotMasked`).
- The activation of the pressure controller keeps its command only up to a small overshoot of
  the target (`PressureControl.ActivationIsSmooth` has the exact bound,
  `PressureControl.ActivationMayDrop` an input beyond it).
- The cup means of summary and script agree only above half a gram
  (`ShotCup.PouringMeansAgree`, `ShotCup.LightCupsDiffer`), and the script, as it is called,
  weighs the sample at which the pump stops, which the summary does not
  (`ShotCup.RiseAtStopDiffers`). `ShotCup.MeansAgreeExactly` says when they agree all the same.
- The heater's energy over the phases adds up only if every phase has a heater reading, or
  none has (`Phases.SsrIsConserved`, `Phases.SsrMayBeLost`).
- Report and plot show the same phases only if the capture does not end before its last
  sample (`Phases.SpansAreRanges`, `Phases.ShortDurationDiffers`).
- The segments of a shot may leave a gap when the pump stops before the cooldown
  (`ShotGaps.EarlyStopLeavesGap`). They do so exactly when a stage is first entered once the
  drips are over, or a ramp that was renamed to the infusion is ended again under its old name
  (`ShotGaps.TilesExactly`).
- `framing.rs:138-141` calls a zero in the stream malformed. A zero is refused exactly where a
  code is expected; inside a block it is decoded (`Cobs.RefusedExactly`,
  `Cobs.ZeroInBlockIsDecoded`). On the line no zero reaches the decoder
  (`SerialFrames.PendingHasNoZero`).
- `framing.rs:219-223` says that an overlong run is dropped up to
  the next zero; the decoder starts again at once, so the end of such a run can still be
  delivered as a frame (`SerialFrames.OverlongRunStillEndsInFrame`; `SerialFrames.StreamIsItsRuns`
  says exactly what is delivered).
- The checksum of a message finds every burst of sixteen bits in what it covers, but not every
  one that reaches from there into the checksum, whose low byte comes first
  (`FrameErrors.BurstAcrossIsAccepted`; `FrameErrors.MissedExactly` has the exact condition).
- `coffeetool/src/flash.rs:10` says that a wrong block is replayed. The receiver abandons the
  transfer instead (`Flash.HalfBlockAborts`): a block that is sent again is accepted exactly
  when nothing of it arrived before, or all of it with the announced checksum
  (`Flash.ResendExactly`).

## Model

| member | source | states |
|---|---|---|
| Lexing.LexConcat | pcb/i2cterm/sexpr.py:13 | text that starts with a delimiter is tokenized independently of any closed text before it |
| Lexing.LexDropParen | pcb/i2cterm/add_ground_plane.py:29 | cutting off a final parenthesis that is a token of its own removes exactly that token, even when strings hold parentheses |
| Lexing.LexRStrip | pcb/i2cterm/add_ground_plane.py:29 | stripping white space at the end of closed text removes no token |
| TokenText.LeadingSpace | pcb/i2cterm/sexpr.py:13 | each of the 29 white-space characters, listed one by one, may stand in front of a text without changing its tokens |
| TokenText.AnySpaceWillDo | pcb/generate_manufacturing.py:53 | between two tokens every one of them is like a space, to the tokens and to both readers |
| TokenText.TextIsTokens | pcb/i2cterm/sexpr.py:13 | a text is its tokens in order with nothing but white space before, between and after them, so every other character belongs to some token |
| TokenText.TokensAreBare | pcb/i2cterm/sexpr.py:13 | a token that starts with no quote is one parenthesis, or holds neither parentheses nor white space |
| TokenText.QuotedExactly | pcb/i2cterm/sexpr.py:13 | a quoted token ends at the one place where everything before it is plain characters and pairs of a backslash and another character than a line feed |
| JsonText.LoadsDumps | pcb/i2cterm/sexpr.py:22-31 | every string is read back from its JSON text, whatever characters it holds |
| JsonText.DumpsIsQuoted | pcb/i2cterm/sexpr.py:13-31 | the JSON text of any string is matched by the regular expression as one token |
| JsonGrammar.LoadsExactly | pcb/i2cterm/sexpr.py:22 | a quoted token is read as a string if and only if it is a row of plain characters, the eight short escapes, numbers of four hexadecimal digits and pairs of surrogates, and then as the characters these stand for |
| Numerals.ReadIntText | pcb/i2cterm/sexpr.py:24-32 | every integer is read back from its printed form |
| NumeralGrammar.IntExactly | pcb/i2cterm/sexpr.py:24 | a text is read as an integer if and only if it is a sign or none and digits in groups with single underscores between them, and then as that number |
| Numerals.ReadFloatText | pcb/i2cterm/sexpr.py:24-32 | every float printed with a point, with or without an exponent, is read back as the same float |
| NumeralGrammar.FloatExactly | pcb/i2cterm/sexpr.py:24 | a text with a point is read as a float if and only if it is a sign or none, digits in groups on at least one side of the point, and an exponent or none |
| NumeralGrammar.NormalExactly | pcb/i2cterm/sexpr.py:24 | the float has the value of these digits with the point where it stands and moved by the exponent |
| Numerals.PointlessFloat | pcb/i2cterm/sexpr.py:24-25 | a float printed without a point is read as neither a float nor an integer |
| NumeralText.IntTextExactly | pcb/i2cterm/sexpr.py:32 | an integer is printed in digits without leading zeros, after a minus if and only if it is negative |
| NumeralText.FloatTextExactly | pcb/i2cterm/sexpr.py:32 | every float is printed with its own value: plainly with a digit on both sides of the point if it is zero or from 0.0001 to below 10^16, otherwise in its significant digits with an exponent of at least two digits; after a minus if and only if it is negative, negative zero included |
| Sexpr.ParseText | pcb/i2cterm/sexpr.py:12-27 | the stack loop returns the last list closed at top level, nothing, or one of its two errors, for every text, as the token-by-token run defines it |
| Sexpr.ParseGroup | pcb/i2cterm/sexpr.py:12-27 | a text whose tokens are one bracketed tree parses to that tree with its atoms evaluated, or fails with the leftmost malformed string |
| RoundTrip.AtomToken | pcb/i2cterm/sexpr.py:28-32 | every printed atom is one token of the reader and is read back as the printed value says |
| RoundTrip.RoundTrip | pcb/i2cterm/sexpr.py:12-32 | for every tree, reading its printed form gives it back if and only if it is a list whose symbols read as symbols and whose floats are printed with a point |
| RoundTrip.LineRoundTrip | pcb/i2cterm/prepare_passthrough.py:17 | the writer that puts one item on a line is undone by the reader under the same condition, in both directions |
| PrintedText.ListText | pcb/i2cterm/sexpr.py:29 | a list is printed as its items between parentheses with one space between any two |
| PrintedText.EscapeExactly | pcb/i2cterm/sexpr.py:31 | a string is printed between quotes, character by character: the quote, the backslash and five control characters with an escape of two, other control characters by their number, everything else as it is |
| PrintedText.LinesText | pcb/i2cterm/prepare_passthrough.py:17 | the line writer puts the first item behind the parenthesis and every other one on a line of its own |
| RoundTrip.ParseDump | pcb/i2cterm/sexpr.py:12-32 | a printed list with bare symbols is always readable, and differs only in atoms whose text reads as something else |
| RoundTrip.ParseRange | pcb/i2cterm/sexpr.py:12-27 | whatever the text, a parsed tree is a list whose symbols are bare tokens that read as no number |
| RoundTrip.StringsRoundTrip | pcb/i2cterm/sexpr.py:12-32 | any list of strings and integers comes back, with no condition on the strings |
| RoundTrip.SmallFloatIsLost | pcb/i2cterm/sexpr.py:24-32 | 0.00001 is read as a float, printed 1e-05 and read back as a symbol |
| Splice.LexSpliced | pcb/i2cterm/add_ground_plane.py:29 | the spliced text has the tokens of one list: the old items, then the new nodes |
| Splice.ParseSpliced | pcb/i2cterm/add_ground_plane.py:29-30 | on any board that is one list the spliced text parses to the old children followed by the new nodes as they are reread |
| Splice.SplicePreserves | pcb/i2cterm/add_ground_plane.py:29-31 | the old children are a prefix of what is parsed, which is what the script asserts, and the whole is old children plus new nodes if and only if the new nodes survive printing |
| PrintedText.SplicedText | pcb/i2cterm/add_ground_plane.py:29 | the saved text is kept up to its last character that is no white space, and the new nodes follow on lines of their own |
| StrictParser.SameTokens | pcb/generate_manufacturing.py:53 | the other order of the alternatives in the regular expression gives the same tokens for every text |
| StrictParser.ParseText | pcb/generate_manufacturing.py:51-68 | the exporter's stack loop returns or raises what the run over the tokens defines |
| StrictParser.AcceptedTree | pcb/generate_manufacturing.py:51-68 | every accepted text is the flattening of one tree, and the result is that tree with raw atoms |
| StrictParser.AcceptsExactly | pcb/generate_manufacturing.py:51-68 | a text is accepted if and only if its tokens form exactly one balanced expression with well-formed strings, and the result is that expression |
| StrictParser.ReadersAgree | pcb/generate_manufacturing.py:51-68 | whatever is accepted as a list the generators' reader reads as the same tree with its atoms evaluated; a lone atom makes that reader fail |
| LaxReader.AcceptsExactly | pcb/i2cterm/sexpr.py:12-27 | the generators' reader accepts a text if and only if its tokens are a row of balanced lists with readable atoms and then any lists left open, and returns the last list of the row |
| StrictParser.LaxReaderAcceptsMore | pcb/generate_manufacturing.py:66-67 | an unclosed list and two lists are refused here and accepted by the generators' reader |
| Outline.CollectPoints | pcb/generate_manufacturing.py:198-209 | the loop gathers the points of all shapes in order and both ends of every line, unless a polygon holds an arc |
| Outline.EvenExactlyClosed | pcb/generate_manufacturing.py:211 | every point is the end of an even number of lines if and only if the lines split into closed walks that use each line once |
| Outline.OpenChainIsRefused | pcb/generate_manufacturing.py:210-212 | an open chain is refused, whatever closed walks are drawn with it and cross it |
| Outline.CheckOutline | pcb/generate_manufacturing.py:193-212 | the outline is accepted if and only if all shapes are supported, no polygon has an arc, there is some point and the lines split into closed walks; each error has its exact cause |
| Outline.PointsAreCorners | pcb/generate_manufacturing.py:198-209 | the points of an outline are both ends of each line, the start and the end of each rectangle and every vertex of each polygon, and no others |
| Outline.SizeIsSmallestBox | pcb/generate_manufacturing.py:213 | the width and height written down are those of the smallest box that holds all these corners |
| ShotRecorder.Recorder.ObservePump | firmware/analysis/describe_hf_capture.py:241-247 | the pump clock keeps the first start and the first stop after it |
| ShotRecorder.Recorder.ObserveScale | firmware/analysis/describe_hf_capture.py:248-254 | weights are taken relative to the first usable one, and the last 32 readings are kept |
| ShotRecorder.Recorder.CupRate | firmware/analysis/describe_hf_capture.py:255-262 | the loop back through the readings computes the specified rate |
| ShotRecorder.Recorder.ObserveTemperature | firmware/analysis/describe_hf_capture.py:264-278 | the variables of the weighted temperature and of the extremes after one usable temperature |
| ShotRecorder.Recorder.ObserveSegments | firmware/analysis/describe_hf_capture.py:229-299 | opening, extending and relabelling the segments at one sample |
| ShotRecorder.Recorder.ObserveDrips | firmware/analysis/describe_hf_capture.py:300-311 | the weight in the cup, the drip gain and the end of the drips after one sample |
| ShotRecorder.Recorder.ObserveFlows | firmware/analysis/describe_hf_capture.py:312-325 | the infusion time and the two rates after one sample, and when they freeze |
| ShotRecorder.Recorder.Observe | firmware/analysis/describe_hf_capture.py:238-325 | one turn of the loop makes of all its variables what the specification makes of the state |
| ShotRecorder.ShotSummary | firmware/analysis/describe_hf_capture.py:199-329 | the loop computes the specified run on every capture, and every lemma about runs holds of its variables |
| ShotSegments.PumpIndices | firmware/analysis/describe_hf_capture.py:241-247 | the start is the first sample with the pump on, the stop the first one off after it, and each is missing if and only if there is no such sample |
| ShotSegments.PumpTimes | firmware/analysis/describe_hf_capture.py:241-247 | on every timed capture the pump clock of a run shows the times of these two samples |
| ShotSegments.FirstTimeIsFirst | firmware/analysis/describe_hf_capture.py:284-287 | the time used for an event is that of the first sample at which it happens, and exists if and only if it happens |
| ShotSegments.MarkTimes | firmware/analysis/describe_hf_capture.py:283-287 | the two marks of a run are the first brewing sample and the first one at pressure, on every capture with times |
| ShotSegments.SegmentsTile | firmware/analysis/describe_hf_capture.py:229-311 | after every sample of a capture in protocol order with a held pump, each segment starts where the capture first enters it, each opened one ends where the next starts and the last ends now or where the drips were over, also when an unreached ramp is relabelled |
| ShotSegments.SegmentsLastTheShot | firmware/analysis/describe_hf_capture.py:281-311 | the lengths of the segments sum to the time from the first one opened to the last end |
| ShotSegments.NotStoppedYet | firmware/analysis/describe_hf_capture.py:241-247 | on such captures the pump has not stopped and the drips are not over before the first cooldown sample |
| ShotGaps.HeldExactly | firmware/analysis/describe_hf_capture.py:241-247 | the pump is held if and only if it does not stop before the first cooldown sample |
| ShotGaps.DripsAreOver | firmware/analysis/describe_hf_capture.py:300-311 | the drips are over if and only if some sample after the stop is dry, and from the first such one on |
| ShotGaps.TilesExactly | firmware/analysis/describe_hf_capture.py:229-311 | on every timed capture in protocol order the segments tile the time if and only if the pump is held, or nothing is first entered once the drips are over and no renamed ramp is ended again |
| ShotGaps.BrewingStopTilesExactly | firmware/analysis/describe_hf_capture.py:281-299 | when the pump stops early but not before the first brewing sample, the segments tile the time if and only if the pressure was reached by then or the capture ends there |
| ShotGaps.EarlyStopLeavesGap | firmware/analysis/describe_hf_capture.py:294-299 | three brewing samples whose pump stops at the second leave a gap exactly when the pressure is not reached |
| ShotMarks.LastsAreLast | firmware/analysis/describe_hf_capture.py:288-291 | the samples the last volume and the last weight are taken from are the last brewing one and the last one with a usable weight |
| ShotMarks.RunMarks | firmware/analysis/describe_hf_capture.py:248-291 | on every timed capture the marks and the last weight and volume are the readings of the first sample at pressure, of the first brewing one and of the last brewing ones, with weights relative to the first usable one |
| ShotFlows.InfusionSeconds | firmware/analysis/describe_hf_capture.py:312-317 | the infusion time of every timed capture, from the capture alone: from the first sample at pressure, else the first brewing one once the pump has stopped, to the first sample off after the pump was on, or the last sample |
| ShotFlows.NoTimeNoSeconds | firmware/analysis/describe_hf_capture.py:312-317 | at a sample without a time the infusion time is zero, once at pressure and until the pump stops |
| ShotFlows.InfusionTimeIsSegment | firmware/analysis/describe_hf_capture.py:296-317 | on a brew whose pump stops at the first cooldown sample the infusion time is the length of the infusion segment, relabelled or not |
| ShotFlows.FrozenRates | firmware/analysis/describe_hf_capture.py:312-325 | on every brew, from the capture alone: the rates are frozen if and only if the pump has stopped after at least a second of infusion, and then they are the changes of weight and volume from the sample it is counted from to the last brewing ones, over its time, and unknown without both readings |
| ShotDrips.DripGain | firmware/analysis/describe_hf_capture.py:300-311 | on every timed capture, from the capture alone: the weight in the cup is the last non-negative one up to the sample at which the drips are over, the stop weight is the last such one up to the stop of the pump, else the first after it, and the gain is what the first exceeds the second by |
| ShotDrips.WindowOfRun | firmware/analysis/describe_hf_capture.py:248-254 | on every capture the window holds the times and the relative weights of the last 32 samples |
| ShotDrips.FlowOfRun | firmware/analysis/describe_hf_capture.py:253-262 | on every capture, from the capture alone: the flow is the slope since the latest of the 31 samples before that is at least 1.999 s older, and is unknown if and only if there is none or a weight is missing or negative since then |
| ShotHeat.HeatOfRun | firmware/analysis/describe_hf_capture.py:263-280 | on every timed capture, from the capture alone: the first and the last valid temperature, and the mean over the cup, which weighs each rise of the weight above its maximum while the pump runs with the temperature halfway since the last valid one before, and is known above half a gram |
| ShotHeat.TemperatureExactly | firmware/analysis/describe_hf_capture.py:104-116 | a sample shows a temperature if and only if its boiler is flagged valid or its reading is 200 to 1000 ms old, or, without that flag, by the rules for old captures |
| ShotCup.CupMeanInvariant | firmware/analysis/describe_hf_capture.py:264-278 | on every capture the summed gain equals the running maximum of the weight, the cup mean is known if and only if it exceeds half a gram, and it lies within any range of the valid temperatures |
| ShotCup.ExtremesAreExtreme | firmware/analysis/describe_hf_capture.py:267-270 | the extremes are the least and the greatest valid temperature met while the pump runs, and are unknown only without any |
| ShotCup.DripInvariant | firmware/analysis/describe_hf_capture.py:300-311 | on every capture the drip gain is between zero and the weight in the cup, and there is none before the pump stops |
| ShotCup.DripsStayDone | firmware/analysis/describe_hf_capture.py:300-311 | once the drips are over no further sample changes the weight in the cup or the drip gain |
| ShotCup.RateIsSlope | firmware/analysis/describe_hf_capture.py:255-262 | the flow into the cup is the slope since the latest reading at least 1.999 s old with no unusable reading after it, and exists if and only if there is one |
| ShotCup.PouringMeansAgree | firmware/analysis/describe_hf_capture.py:264-278 | while complete samples pour, the summary's mean is the script's over the same samples, and the two agree if and only if nothing or more than half a gram was gained |
| ShotCup.CupMeansAgree | firmware/analysis/describe_hf_capture.py:241-278 | over a whole capture the summary's mean is the script's mean of the samples before the stop, and that is where the script finds the stop |
| ShotCup.MeanIsFinal | firmware/analysis/describe_hf_capture.py:247-278 | after the pump has stopped no further sample changes the stop or the mean |
| ShotCup.MeansAgreeExactly | firmware/analysis/analyze_hf_capture.py:173 | called with the stop sample, as it always is, the script gives the summary's mean if and only if that sample is well-formed and either does not count, with nothing or more than half a gram gained before, or is weighed at exactly the mean so far |
| ShotCup.LightCupsDiffer | firmware/analysis/describe_hf_capture.py:277-278 | a gain of 0.4 g has a mean in the script and none in the summary |
| ShotCup.RiseAtStopDiffers | firmware/analysis/analyze_hf_capture.py:105-138 | a rise at the stop sample changes the script's mean from 90 to 87.5 °C and not the summary's |
| ShotCup.StopSampleCounts | firmware/analysis/analyze_hf_capture.py:105-138 | counting the stop sample as well changes the script's result if and only if the cup rose above its maximum there |
| CupMeans.CupWeightedTemperature | firmware/analysis/analyze_hf_capture.py:105-138 | the loop returns, or raises, what the usable samples up to the end index determine: the rises of the maximum weighted with the mean of the temperatures around them |
| CupMeans.CupMeanLaws | firmware/analysis/analyze_hf_capture.py:105-138 | the total is the maximum usable weight minus the first one, there is a result if and only if some weight exceeds the first, and the mean lies among the usable temperatures |
| CupMeans.UnusableIsIgnored | firmware/analysis/analyze_hf_capture.py:118-127 | inserting an unusable sample anywhere does not change the result |
| MeanLaws.UsableExactly | firmware/analysis/analyze_hf_capture.py:42-127 | a sample counts with its weight and temperature, is malformed, or is passed over, each exactly for its own flags, age and readings, for both sources of the temperature |
| MeanLaws.CupMeanOfLinear | firmware/analysis/analyze_hf_capture.py:105-138 | while the temperature changes linearly with the weight and the weight does not fall, the mean is halfway between the first and the last temperature, however unevenly it is sampled |
| CupMeans.PumpStopIndex | firmware/analysis/analyze_hf_capture.py:53-60 | the first sample at zero right after a positive command, if no malformed command comes before it; none if and only if there is no such sample |
| CupMeans.FirstPumpStop | firmware/analysis/describe_hf_capture.py:369-376 | the first sample at zero with the pump on at some time before |
| CupMeans.FirstStopsAgree | firmware/analysis/describe_hf_capture.py:369-376 | both searches find the same stop on every capture of non-negative commands, although one latch is reset and the other is not |
| CupMeans.VolumeWeightedTemperature | firmware/analysis/analyze_hf_capture.py:63-83 | the loop returns the volume and the mean, or the first error, that the neighbouring samples determine |
| CupMeans.VolumeMeanLaws | firmware/analysis/analyze_hf_capture.py:63-83 | the volume is between the net change of the meter and that plus a millionth per step, and the mean lies among the temperatures |
| MeanLaws.VolumeMeanExactly | firmware/analysis/analyze_hf_capture.py:63-83 | there is a mean if and only if every volume is a number, none falls by more than 0.000001 ml, both temperatures are usable wherever it rises, and it rises somewhere; and only for want of a rise is no volume the error |
| MeanLaws.VolumeMeanOfLinear | firmware/analysis/analyze_hf_capture.py:63-83 | while the temperature changes linearly with the volume and the volume does not fall, the mean is halfway between the first and the last temperature |
| PressureControl.Controller.Update | firmware/analysis/replay_brew_pi.py:63-92 | the three fields after an update are the specified step of the controller |
| PressureControl.RunWithin | firmware/analysis/replay_brew_pi.py:58-92 | over every sequence of inputs an active controller stays within the pump's range up to rounding, an inactive one keeps its first command, and activation never reverts |
| PressureControl.RunBetweenWholeBounds | firmware/analysis/replay_brew_pi.py:58-92 | with whole bounds the integral and the command are between floor and initial after every run |
| PressureControl.IntegralNeverAgainstError | firmware/analysis/replay_brew_pi.py:74-83 | the integral never moves against the error, nor further into saturation |
| PressureControl.ActivationIsSmooth | firmware/analysis/replay_brew_pi.py:67-92 | after any run the activating step keeps the command if and only if the pressure is at most half a percent of proportional action above the target, or floor and initial coincide |
| PressureControl.ActivationMayDrop | firmware/analysis/replay_brew_pi.py:67-92 | a first sample 0.1 bar above the target drops the command from 100 to 99 |
| PressureControl.ActiveExactly | firmware/analysis/replay_brew_pi.py:58-71 | after every run the controller is active if and only if some pressure was at least the target less the margin; until then it has the whole number nearest to the first command, halves to even |
| PressureControl.ActivationExactly | firmware/analysis/replay_brew_pi.py:66-92 | the activating step takes as its integral the command less kp times the error, as far as the range lets it, and commands the whole number nearest to the output within the range |
| PressureControl.StepExactly | firmware/analysis/replay_brew_pi.py:74-92 | every later step, with the bounds in the way: the integral stays if the output would leave the range on the side of the error, and else moves by ki times error times seconds as far as the range lets it; the command is the whole number nearest to the output within the range |
| PressureControl.FreeRunIntegrates | firmware/analysis/replay_brew_pi.py:74-92 | over any run of active steps in which nothing meets a bound the integral grows by ki times the sum of error times milliseconds over 1000, and the last command is the whole number nearest to kp times the last error plus the integral, halves up |
| Replay.LatestValidIsLatest | firmware/analysis/replay_brew_pi.py:125-132 | the sample a control step uses is the last valid one not after the tick, and is missing if and only if there is none |
| Replay.Advance | firmware/analysis/replay_brew_pi.py:125-130 | the advancing index holds the last valid sample passed and stops at the last sample not after the tick |
| Replay.ReplayCapture | firmware/analysis/replay_brew_pi.py:109-161 | on sorted captures there is one row for each sample in order, with the controller after the first tick at or after the sample, or after the last tick |
| Replay.ControllerRunsUpdates | firmware/analysis/replay_brew_pi.py:131-137 | the replayed controller is the plain controller run over exactly the updates made, which integrate over no more time than has passed |
| Replay.UpdateIsDue | firmware/analysis/replay_brew_pi.py:131-137 | every update comes at least a control period after the one before, and uses the latest valid pressure, no older than the hold time, over at most the longest integration time |
| Replay.TicksExactly | firmware/analysis/replay_brew_pi.py:111-124 | the ticks are every tick period from the first captured time up to the last, and the first update counts from the first time |
| Replay.UpdatesExactly | firmware/analysis/replay_brew_pi.py:124-137 | at a tick there is an update if and only if a control period has passed and the latest valid pressure is not too old, and it integrates over the time since the last one, up to the limit |
| Replay.IntegrationWithinSpan | firmware/analysis/replay_brew_pi.py:131-137 | the integration times of all updates sum to at most the span of the capture |
| Replay.RowsAreWithinRange | firmware/analysis/replay_brew_pi.py:142-160 | with whole bounds every row shows an integral and a command within the pump's range |
| WeightFlow.WeightFlowGS | firmware/analysis/describe_hf_capture.py:58-78 | the two-pointer sweep returns at each sample of a sorted capture the end-to-end slope over exactly the samples within half a window, defined if and only if there is one on each side, time passes and no weight is masked |
| WeightFlow.FlowBetweenSlopes | firmware/analysis/describe_hf_capture.py:58-78 | wherever the flow is defined it lies between any bounds of the neighbouring slopes in its window |
| WeightFlow.EdgesAreNotMasked | firmware/analysis/plot_hf_capture.py:54-76 | a flow that is defined although its window reaches beyond the capture on both sides |
| Phases.RunsAreRuns | firmware/analysis/describe_hf_capture.py:383-385 | the runs of any sequence cover it, each has one key, and neighbours differ |
| Phases.RunsExpand | firmware/analysis/describe_hf_capture.py:438-448 | expanding the runs gives back the modes |
| Phases.TransitionsAreJoints | firmware/analysis/describe_hf_capture.py:383-385 | the transition indices are exactly where one run stops and the next starts |
| Phases.PhaseRanges | firmware/analysis/describe_hf_capture.py:438-448 | the ranges built from the transitions are the runs of the modes with the times of their ends |
| Phases.PhasesLastTheCapture | firmware/analysis/describe_hf_capture.py:438-448 | the durations of the phases sum to the duration minus the first time |
| Phases.PhaseSpans | firmware/analysis/plot_hf_capture.py:90-104 | the plot's loop yields the runs of the mode texts, the last one reaching to the later of the end and the last sample |
| Phases.SpansAreRanges | firmware/analysis/plot_hf_capture.py:90-104 | for named modes plot and report show the same intervals if and only if the duration is at least the last time |
| Phases.PhaseEnergy | firmware/analysis/describe_hf_capture.py:483-495 | the loop sums command and heater energy with each sample held until the next, and the heater's is unknown if and only if no sample says whether it is on |
| Phases.CommandIsConserved | firmware/analysis/describe_hf_capture.py:483-495 | the commands summed phase by phase equal that of the whole capture |
| Phases.SteadySums | firmware/analysis/describe_hf_capture.py:480-495 | while command and heater stay the same, the command is its percentage times the seconds and a heater that is on takes 1.2 kJ a second, however often it is sampled; any other takes nothing |
| Phases.SsrIsConserved | firmware/analysis/describe_hf_capture.py:483-495 | the heater's energy over the phases equals that of the capture if and only if every phase has a heater reading or none has |
| Phases.SsrMayBeLost | firmware/analysis/describe_hf_capture.py:483-495 | one phase without a heater reading makes the sum over the phases unknown and not that of the capture |
| Phases.ShortDurationDiffers | firmware/analysis/plot_hf_capture.py:90-104 | a duration before the last sample gives report and plot different intervals |
| InvalidRanges.InvalidRanges | firmware/analysis/describe_hf_capture.py:388-410 | for increasing times the intervals are sorted, not empty and strictly apart, a sample before the end is invalid if and only if its time lies in one of them, and their lengths sum to the hold times of the invalid samples |
| LagFilter.FilterOnce | firmware/analysis/simulate_boiler.py:112-116 | one pass over the array computes the first-order filter of the signal |
| LagFilter.LagSignal | firmware/analysis/simulate_boiler.py:107-117 | the delayed array filtered so many times is the specified lag, for any dead time; an empty signal is an error as soon as its first value is asked for |
| LagFilter.LagLaws | firmware/analysis/simulate_boiler.py:107-117 | the lag keeps any range of the signal, and its length if and only if the dead time is not longer; a rising signal stays rising, falls pointwise for any larger time constant, and is never overtaken when the length is kept |
| LagFilter.LagIsLinear | firmware/analysis/simulate_boiler.py:107-117 | the lag of a combination of two signals is the combination of their lags |
| LagFilter.LagSolves | firmware/analysis/simulate_boiler.py:111-116 | the lag of each order solves the first-order equation for the one below: tau times the change of the output is 0.1 s times what is missing to the input, from its first value on |
| LagFilter.LagOfNothing | firmware/analysis/simulate_boiler.py:108-109 | of order nothing it is the signal later by the dead time in steps of 0.1 s, to the nearest, with the first value before; a dead time longer than the signal makes it longer, as the slice then counts from the end |
| LagFilter.StepResponse | firmware/analysis/simulate_boiler.py:111-116 | after a unit step what is missing to one shrinks by tau / (tau + 0.1) with every step |
| Preheat.HoldBack | firmware/analysis/simulate_boiler.py:177-188 | the loop holds the demand back exactly from the trigger until the first step at which the demand held back covers the debt, and keeps what is left |
| Preheat.RunScenario | firmware/analysis/simulate_boiler.py:158-196 | the commands of a scenario of either kind, or which of its errors is raised |
| Preheat.LeadIsShift | firmware/analysis/simulate_boiler.py:191-196 | with a lead every need is commanded exactly that many steps before its water, and none is left out |
| Preheat.LeadBalance | firmware/analysis/simulate_boiler.py:191-211 | running ahead costs what the run without preheat and cut costs plus the needs after the last infusion step, whatever the lead |
| HeatBalance.HeatsTheWater | firmware/analysis/simulate_boiler.py:153-211 | without a preheat a run spends at most 42 W while it heats plus what warms the water let in by 70.5 K, and exactly that if and only if the cap is in no step's way |
| HeatBalance.HeldExactly | firmware/analysis/simulate_boiler.py:179-188 | the demand of a step is held back if and only if the repayment has begun and at no step since then has the demand reached what the seconds of preheat took |
| HeatBalance.PreheatExactly | firmware/analysis/simulate_boiler.py:189-195 | the preheat is its command for whole steps of 0.1 s, to the nearest; with a lead it lasts the whole steps within it |
| HeatBalance.RunsExactly | firmware/analysis/simulate_boiler.py:171-197 | each error has its exact cause: nothing but preheat, no infusion, a preheat or a lead of less than no step |
| Preheat.PreheatBalance | firmware/analysis/simulate_boiler.py:179-211 | a repaid run costs what the run without preheat costs plus what is left of the debt plus the rounding of the preheat; exactly the first two if and only if the preheat is whole steps or commands nothing |
| Preheat.DebtOvershoot | firmware/analysis/simulate_boiler.py:186-188 | the debt never falls below minus one step at the cap |
| Preheat.RepaidWithinOneStep | firmware/analysis/simulate_boiler.py:179-211 | for a preheat of whole steps the run costs at most what it costs without preheat, and less than one step less, if and only if the debt is repaid, which is if and only if the demand after the trigger covers it |
| Frames.DecodeEncode | firmware/rust/protocol/src/scace.rs:85-94 | every frame the probe can send is read back field by field by the script, with any bytes appended |
| Frames.DecodesWhatIsCarried | firmware/analysis/scace_ble_log.py:81-88 | a message is accepted if and only if it starts with the encoding of a frame, but for the reserved byte, and only that frame is read |
| WireFormat.OnTheWire | firmware/rust/protocol/src/scace.rs:85-94 | a frame is twelve bytes: two unsigned and three signed little-endian numbers, the status and a zero |
| WireFormat.DecodedExactly | firmware/analysis/scace_ble_log.py:81-88 | a message is accepted if and only if it has twelve bytes and a status up to 3; each field is read at its place, and the temperature in hundredths of a degree unless it is -32768 |
| WireFormat.PointExactly | firmware/analysis/scace_ble_log.py:74-78 | a frame adds a point if and only if its status is 1, its first reading exceeds the second and it has a temperature; the ratio times their difference is the second reading |
| WireFormat.RowIsWhatWasSent | firmware/analysis/scace_ble_log.py:145-148 | the line of the log repeats every field sent, with the time of reception to the nearest millisecond |
| Frames.Recorder.OnData | firmware/analysis/scace_ble_log.py:136-154 | all fields of the log after a message; a refused one changes nothing but the count of refused ones |
| Frames.WindowIsRecent | firmware/analysis/scace_ble_log.py:150-154 | for frames received in order the window is the whole history of usable points filtered to the last window of time |
| Frames.RunRows | firmware/analysis/scace_ble_log.py:144-148 | after every run there is one row for each accepted frame, in order |
| Frames.RunCounts | firmware/analysis/scace_ble_log.py:132-144 | the counters of every run from the sequence numbers of each link alone; reopening the link loses nothing |
| Frames.FrameAccounting | firmware/analysis/scace_ble_log.py:91-144 | frames counted plus frames lost never exceed the frames numbered over each link, and equal them if and only if no gap of the unbounded counter exceeds 65536 |
| Crc16.Crc16Ccitt | firmware/rust/protocol/src/crc.rs:6-19 | the bit loop computes the remainder defined on the whole message |
| Crc16.ChangedByteIsDetected | firmware/rust/protocol/src/crc.rs:6-19 | two messages of any length that differ in exactly one byte have different remainders |
| CheckValues.CheckValue16 | firmware/rust/protocol/src/crc.rs:6-19 | the remainder of the nine digits in ASCII is the published check value 0x29B1 |
| CrcBits.OddChangeIsDetected | firmware/rust/protocol/src/crc.rs:6-19 | two messages of one length that differ in an odd number of bits have different remainders |
| CrcBits.BurstIsDetected | firmware/rust/protocol/src/crc.rs:6-19 | two messages that differ only within sixteen consecutive bits, anywhere, have different remainders |
| CrcBits.ResidueOfDifference | firmware/rust/protocol/src/crc.rs:6-19 | the remainders of two messages of one length differ by a function of where the messages differ alone |
| Cobs.Encode | firmware/rust/protocol/src/framing.rs:105-136 | the one-pass encoder with its back-patched codes writes the block coding, and fails if and only if it does not fit |
| Cobs.Decode | firmware/rust/protocol/src/framing.rs:142-171 | the decoder writes the decoded bytes, and fails if and only if a zero stands for a code, the last block is shorter than its code says, or the bytes do not fit |
| Cobs.AcceptedExactly | firmware/rust/protocol/src/framing.rs:142-171 | an input is decoded if and only if it is a row of blocks of at most 254 bytes of any value, each behind its length plus one, and it is decoded to these blocks with a zero after each that is not full and not the last |
| Cobs.RefusedExactly | firmware/rust/protocol/src/framing.rs:148-158 | an input is refused if and only if, after some blocks, a zero stands for a code or fewer bytes follow than the code says |
| Cobs.ZeroFreeRefusal | firmware/rust/protocol/src/framing.rs:148-158 | without zeros an input is refused if and only if its last block ends short |
| Cobs.UnstuffedStuffed | firmware/rust/protocol/src/framing.rs:101-171 | every message of any length is decoded from its coding |
| Cobs.StuffedShape | firmware/rust/protocol/src/framing.rs:101-105 | a coding has no zero, and is at most one byte longer plus one for every 254 bytes |
| Cobs.ZeroInBlockIsDecoded | firmware/rust/protocol/src/framing.rs:138-171 | between any blocks, a block that holds a zero is decoded with its zero |
| SerialFrames.EncodePdu | firmware/rust/protocol/src/framing.rs:53-71 | the message written, and which of the two errors is raised with nothing written |
| SerialFrames.PduIsExact | firmware/rust/protocol/src/framing.rs:74-99 | a message is accepted if and only if it is the encoding of the padded frame read from it |
| SerialFrames.SizesExactly | firmware/rust/protocol/src/framing.rs:22-26 | a frame takes seven bytes more than its payload on the line, and the longest one exactly fills the three buffers |
| SerialFrames.MessageExactly | firmware/rust/protocol/src/framing.rs:74-99 | a message byte by byte, and which of the three errors every other one is |
| SerialFrames.DecodeEncodePdu | firmware/rust/protocol/src/framing.rs:53-99 | what is sent is read back, unchanged if and only if the bytes past its length were zero |
| SerialFrames.ChangedByteIsRefused | firmware/rust/protocol/src/framing.rs:74-99 | a message with exactly one changed byte, in the length or the checksum too, is refused |
| FrameErrors.OddChangeIsRefused | firmware/rust/protocol/src/framing.rs:74-99 | a message with an odd number of changed bits is refused |
| FrameErrors.BurstIsRefused | firmware/rust/protocol/src/framing.rs:74-99 | a change within sixteen consecutive bits is refused if it spares the checksum or what it covers |
| FrameErrors.MissedExactly | firmware/rust/protocol/src/framing.rs:84-91 | the checksum misses a change that keeps the length byte if and only if the change of the checksum is the residue of the change of what it covers |
| FrameErrors.BurstAcrossIsAccepted | firmware/rust/protocol/src/framing.rs:65-91 | for every frame with an even last byte, a burst of sixteen bits at most that is accepted as another frame |
| SerialFrames.EncodeFramed | firmware/rust/protocol/src/framing.rs:174-180 | the framed bytes always fit; a frame out of bounds writes nothing |
| SerialFrames.StreamDecoder.PushByte | firmware/rust/protocol/src/framing.rs:203-231 | buffer, counter and result after one byte |
| SerialFrames.StreamIsItsRuns | firmware/rust/protocol/src/framing.rs:182-231 | over any stream the frames found, the bytes pending and the drop counter modulo 2^32 are determined by the runs of bytes between zeros, each cut to what follows its last full fifteen bytes |
| SerialFrames.DropsExactly | firmware/rust/protocol/src/framing.rs:203-231 | the drop counter after any stream, modulo 4294967296: one for every fifteen bytes without a zero and one for every ended run without a frame |
| SerialFrames.PendingHasNoZero | firmware/rust/protocol/src/framing.rs:203-231 | after any stream no zero is pending, so the decoder never gets one |
| SerialFrames.OnlyShortRunsAreRefused | firmware/rust/protocol/src/framing.rs:203-231 | what is pending after any stream is no coding if and only if its last block ends short |
| SerialFrames.FramesComeThrough | firmware/rust/protocol/src/framing.rs:174-231 | frames sent one after the other are all found in order, with nothing dropped |
| SerialFrames.Resynchronizes | firmware/rust/protocol/src/framing.rs:182-231 | from any state and after any noise, every frame sent after the first zero is found |
| SerialFrames.OverlongRunStillEndsInFrame | firmware/rust/protocol/src/framing.rs:218-225 | a frame found although no zero separates it from the noise before it |
| Crc32.Update | firmware/rust/protocol/src/crc.rs:33-57 | updating the register piece by piece is the same as with the whole message |
| Crc32Bits.ChangedByteIsDetected32 | firmware/rust/protocol/src/crc.rs:24-57 | two images of any length that differ in exactly one byte have different checksums |
| Crc32Bits.LowBurstIsDetected | firmware/rust/protocol/src/crc.rs:24-57 | two images that differ only within thirty-two consecutive bits, anywhere, have different checksums |
| CheckValues.CheckValue | firmware/rust/protocol/src/crc.rs:21-57 | the checksum of the nine digits in ASCII is the published check value 0xCBF43926 |
| FlashReceiver.FlashReceiver.BeginTransfer | firmware/rust/sensors-logic/src/flash_rx.rs:143-161 | the transfer, the slot and the reply after a BEGIN, with any transfer before it given up |
| FlashReceiver.FlashReceiver.StartBlock | firmware/rust/sensors-logic/src/flash_rx.rs:163-181 | the transfer and the reply after a BLOCK_START |
| FlashReceiver.FlashReceiver.TakeData | firmware/rust/sensors-logic/src/flash_rx.rs:186-234 | the transfer, the slot and the reply after a data frame, with the buffer, the counters and both checksums kept up |
| FlashReceiver.FlashReceiver.EndTransfer | firmware/rust/sensors-logic/src/flash_rx.rs:236-258 | the transfer, the slot, the commits and the reply after an END |
| Flash.NextKeeps | firmware/rust/sensors-logic/src/flash_rx.rs:134-258 | after every command, failed writes included, the slot of an active transfer holds the blocks accepted since its BEGIN over erased flash |
| Flash.CommitIsWhole | firmware/rust/sensors-logic/src/flash_rx.rs:236-258 | after any run of commands an image is committed only at an END, with the slot holding exactly the announced number of bytes accepted since the BEGIN, their checksum as given and their own head checked |
| Flash.DamagedIsNotCommitted | firmware/rust/sensors-logic/src/flash_rx.rs:236-258 | after any run of commands, if what was accepted differs from the image whose checksum END gives only within thirty-two consecutive bits, nothing is committed and the answer is a mismatch |
| FlashContents.CommitExactly | firmware/rust/sensors-logic/src/flash_rx.rs:236-272 | after any run of commands an END commits if and only if every announced byte was accepted, with this checksum, and the first bytes are those of an image of this chip; and it commits these bytes |
| FlashContents.SlotExactly | firmware/rust/sensors-logic/src/flash_rx.rs:134-234 | after any run of commands every byte of the slot of an active transfer is the one accepted there, in blocks of 2048, or 0xFF |
| FlashContents.TakenExactly | firmware/rust/sensors-logic/src/flash_rx.rs:186-205 | a data frame is taken up to the end of the image or of its block, whichever comes first, and not at all during a replay |
| Flash.ReplayChangesNothing | firmware/rust/sensors-logic/src/flash_rx.rs:163-191 | a replay of the last block with any data after it leaves the state as if only the following BLOCK_START had come |
| Flash.ResendExactly | firmware/rust/sensors-logic/src/flash_rx.rs:163-181 | a block sent again is expected, acknowledged as a replay, or aborts the transfer, each exactly for what arrived of the first attempt |
| Flash.HalfBlockAborts | firmware/rust/coffeetool/src/flash.rs:136-163 | half of a block arrives, and sending it again abandons the transfer |
| Flash.UploadDelivers | firmware/rust/coffeetool/src/flash.rs:114-174 | every image of at most 65535 blocks that fits is in the slot after a session, however often each block is sent again for a lost acknowledgement, and is committed if and only if its head is that of an image |
| FlashContents.BlockExactly | firmware/rust/coffeetool/src/flash.rs:132-133 | the blocks sent are the bytes of the image in order, 2048 at a time |
| FlashContents.FrameExactly | firmware/rust/coffeetool/src/flash.rs:143-147 | a block is sent in frames of eight bytes, the last one with what is left |

## Left out

- WeightFlow.WeightFlowGS: says nothing about the values for times that are not sorted, where the two pointers enclose no window; the plot's copy, which does not look at masked weights, is the same sweep.
- Replay.ReplayCapture: says nothing about captures that are not sorted by time; fields that are missing or no numbers raise errors that are not modelled.
- InvalidRanges.InvalidRanges: says nothing for times that do not increase or are NaN.
- Phases.PhaseSpans: takes the times as given, one for each sample, as its callers compute them.
- ShotSegments.SegmentsTile: needs times and modes in protocol order; for a pump that is not held ShotGaps.TilesExactly says when the segments tile the time.
- LagFilter.LagSignal: a time constant of minus one step, which divides by zero, is not modelled.
- Preheat.RunScenario: only the commands and their energy; the temperatures and the summary of a scenario are not modelled.
- Flash.UploadDelivers: the sender's waiting for acknowledgements and its limit of three attempts are not modelled.
- FlashReceiver.FlashReceiver.TakeData: the 16-bit block counter starts again after 65536 blocks, as in a release build; a debug build stops there. What a failed write leaves in the slot, and whether the hardware accepts a commit, are parameters.
- Frames.Recorder.OnData: the log is a list of rows with times in milliseconds and temperatures in hundredths, not the text of the file.
- Outline.CheckOutline: takes the shapes with their coordinates read; missing attributes are not modelled.
- CupMeans.CupWeightedTemperature: a `flags` field that is no number raises an error that is not modelled.
- Float rounding, infinities and overflow: measurements are exact reals, floats in S-expressions exact decimals.
- Digits outside ASCII in numbers, Python's limit on very long integers, and unpaired surrogates in strings.
- Measurements given as numeric text in a capture count as missing here, and `flags` always holds bits.
- The parser stacks hold values; that Python's stack entries alias the lists they are nested in is not modelled.
- Report text, HTML and plots, command lines, files, wireless scanning and threads.
- The boiler model's temperatures and its fit, and calibration with logarithms and exponentials.
- The identifiers and payloads of the CAN protocol, and the firmware's other state machines.
- The generators' placement tables and helpers that look up nodes by their first symbol.
- The summary's total and cumulative display fields, and the report's key points and extrema: single expressions.
