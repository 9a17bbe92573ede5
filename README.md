# pingstats core in Dafny

pingstats is a Windows tool that pings a host (or discovers one along the
route to the Internet), keeps a history of the replies with running
statistics, draws a graph of them, and stores its settings in small
configuration trees. This project is a Dafny model of the parts of it that
are plain logic, with proofs of what they promise:

- `Icmp` (icmp.dfy): the RFC 1918 test `isPublicAddress`, the classification
  of an echo reply (`makeIcmpPingResult`), the wait of `sendIcmpEcho` and the
  route search `traceRoute` with its TTL and retry loops. The echo call is an
  oracle `echo: nat -> EchoOutcome` indexed by the number of the call.
- `PingData` (ping_data.dfy): the probe history kept sorted by send time,
  its compaction, the adaptive-weight moving averages of loss, mean and
  jitter, and the vertical scale of the graph, over `real`.
- `PingMonitor` (ping_monitor.dfy): the older monitor's state machine
  (search for the first public node, count the hops, ping), its sorted
  sample history, `forReverseRange` and the loss window.
- `OrderedMap` (ordered_map.dfy): `std::map<std::string, std::string>` as a
  strictly sorted list of entries, with `insert` and `operator[]`.
- `Converters` (converters.dfy): the string and bool value converters.
- `TreeConfig`, `TreeConfigText`, `TreeConfigNodes` (tree_config*.dfy): the
  escaped text format of `TreeConfigNode`, its parser and serialiser as
  functions and as the loops they are, the round trip between them, and the
  node class.
- `PropertyTree`, `PropertyTreeText`, `PropertyNodes` (property_*.dfy): the
  same for the unescaped format of `PropertyNode`.
- `CanvasDrawing` (canvas_drawing.dfy): colour packing and blending and the
  pixel-buffer operations on a canvas held in an array.
- `GraphPrinter` (graph_printer.dfy): the 2x downsampler `scaleBitmap2`,
  the draw-deadline catch-up loop and the buffer resize rules.
- `StringCache` (string_cache.dfy): the bookkeeping of the cache of
  rendered strings: lookup, usage counters and eviction.
- `TextUtility` (text_utility.dfy): `parseWords` and
  `insertCarriageReturns`, which exist with the same code in
  src/utility/utility.hpp and src/utility.hpp, and the C-string helpers the
  parsers share.
- `Wrappers` (wrappers.dfy): `Option`.

Time points are integer nanoseconds of the steady clock. IPv4 addresses are
`bv32` in host order, the first octet most significant. C strings are
`seq<char>` read through a function that answers '\0' at and past the end,
so a NUL in the text stops every scan as it does in C. Configuration
nodes are values held in the `children` field of their parent class
object; a pointer the source hands out to a child becomes its index.

## Model

| member | source | states |
|---|---|---|
| CanvasDrawing.ComponentsRoundTrip | src/canvas_drawing.hpp:70-100 | r(), g(), b() and a() give back exactly the four bytes a Color was constructed from (a in bits 24-31, r in 16-23, g in 8-15, b in 0-7) |
| CanvasDrawing.ColorRoundTrip | src/canvas_drawing.hpp:60-100 | every 32-bit pixel value is the Color built from its own four channels, so packing and unpacking are inverse |
| CanvasDrawing.MergeChannel | src/canvas_drawing.hpp:121-123 | one blended channel never exceeds 255, equals c0 at weight 0 and c1 at weight 256, and lies between the two inputs (down to one below the smaller, from the two truncating shifts) |
| CanvasDrawing.MergeBounds | src/canvas_drawing.hpp:117-123 | the sum of the two shifted products stays between min(a,b)-1 and max(a,b) and hits a or b at the end weights |
| CanvasDrawing.MergeColors | src/canvas_drawing.hpp:115-124 | mergeColors blends each of r, g and b separately by the integer weight, and the result's alpha byte is 0 |
| CanvasDrawing.MergeEndpoints | src/canvas_drawing.hpp:115-124 | weight 0 yields c0's RGB and weight 256 yields c1's RGB, both with alpha cleared |
| CanvasDrawing.Canvas.constructor | src/canvas_drawing.hpp:148 | a new canvas has the requested width and height and a fresh pixel block |
| CanvasDrawing.RoundUp | src/canvas_drawing.hpp:139-141 | roundUp(x) is a multiple of 16 strictly above x and at most x+16 |
| CanvasDrawing.RoundUpMonotone | src/canvas_drawing.hpp:139-141 | a larger request never rounds up to a smaller size |
| CanvasDrawing.ResizeCanvasPredictive | src/canvas_drawing.hpp:137-157 | an empty canvas, or one more than 5/4 of the request on either side, is reallocated at exactly RoundUp(width) x RoundUp(height); one that fits within 5/4 but is too small on either side is reallocated at exactly RoundUp(width*5/4) x RoundUp(height*5/4); any other keeps its pixels; so the canvas ends at least the requested size and at most the rounded-up 5/4 of it |
| CanvasDrawing.ClearCanvas | src/canvas_drawing.hpp:159-169 | every one of the width x height pixels takes the colour's value |
| CanvasDrawing.FillRow | src/canvas_drawing.hpp:183-189 | the inner fill loop writes columns [left, right) of one row and no other pixel |
| CanvasDrawing.FillCanvasRectAsWritten | src/canvas_drawing.hpp:171-191 | as written, the fill covers columns [left, right) of rows [0, rect.height()), whatever rect.top is, and leaves every other pixel unchanged |
| CanvasDrawing.FillIgnoresTop | src/canvas_drawing.hpp:177-183 | for the rectangle (0,1)-(1,2) the code fills row 0, which is outside the rectangle, and not row 1, which is inside |
| CanvasDrawing.FillCanvasRect | src/canvas_drawing.hpp:171-191 | the intended fill: exactly the pixels inside the rectangle take the colour, every other pixel is unchanged |
| CanvasDrawing.CopyRow | src/canvas_drawing.hpp:209-212 | one memcpy copies width pixels of a source row into a destination row and touches nothing else |
| CanvasDrawing.CopyCanvasRect | src/canvas_drawing.hpp:193-214 | dest(dx+i, dy+j) = source(sx+i, sy+j) for every i < width and j < height, and every other destination pixel is unchanged |
| CanvasDrawing.Plot | src/canvas_drawing.hpp:228-238 | the pixel (x,y) takes the colour exactly when clip.left <= x < clip.right and clip.top <= y < clip.bottom; nothing else changes |
| CanvasDrawing.PlotBlended | src/canvas_drawing.hpp:216-226 | the same clip test; the pixel inside becomes mergeColors of its old value and the colour |
| CanvasDrawing.Clamp | src/canvas_drawing.hpp:250-251 | std::clamp's result lies in [lo, hi] and is the value itself when that already lies there |
| CanvasDrawing.DrawHorizontalLine | src/canvas_drawing.hpp:240-265 | only row y is written, and only when the clip holds it, over the columns from the clamped smaller end to the clamped larger end; every other pixel is unchanged |
| CanvasDrawing.DrawVerticalLine | src/canvas_drawing.hpp:267-292 | the same with the axes swapped: only column x, between the clamped ends |
| CanvasDrawing.HorizontalLineInClip | src/canvas_drawing.hpp:243-251 | a horizontal line never leaves the clip rectangle, and with both ends inside the clip it covers exactly the span between them |
| CanvasDrawing.VerticalLineInClip | src/canvas_drawing.hpp:270-278 | the same for vertical lines |
| Converters.Text | src/utility/tree_config.hpp:371-385 | the string converter loads any text unchanged and stores the value as its own text, so it round-trips |
| Converters.AsWrittenAcceptsEmpty | src/utility/tree_config.hpp:390-441 | as written, the empty text passes the processed == size() test (0 == 0) and loads the uninitialised temporary, so the result depends on that garbage |
| Converters.LoadBool | src/utility/tree_config.hpp:416-441 | the intended bool load: Some(true) exactly for "true" in any case, Some(false) exactly for "false" in any case, failure for every other text including the empty one |
| Converters.LoadBoolAgreesOnNonEmpty | src/utility/property_node.hpp:293-344 | the intended load and the written one agree on every non-empty text |
| Converters.Bool | src/utility/tree_config.hpp:405-413 | the bool converter stores "true"/"false" and reads them back, so store-then-load gives the value |
| GraphPrinter.Uint16 | src/graph_printer.hpp:249-250 | the std::uint16_t conversion lands in [0, 65536) and leaves a value that fits unchanged |
| GraphPrinter.Average4Channels | src/graph_printer.hpp:486-506 | each output channel of a 2x2 block is the floor of the sum of the four source channel bytes over 4, hence at most 255, and output bits 24-31 are 0 |
| GraphPrinter.UniformAverage | src/graph_printer.hpp:502-506 | four equal pixels with a zero top byte average to that same pixel |
| GraphPrinter.RowStartIsProduct | src/graph_printer.hpp:477 | the row offset reached by adding the row width k times is k * width, as iTimesWidth is stepped in the source |
| GraphPrinter.RowStartBelow | src/graph_printer.hpp:477-479 | an earlier row ends before a later row begins |
| GraphPrinter.DoubleRows | src/graph_printer.hpp:472-477 | rows 2k and 2k+1 of the double-size image start at 4 times the start of row k of the output, and one double-width row further |
| GraphPrinter.AsWrittenSkipsSecondRow | src/graph_printer.hpp:481-484 | as written, the reads for p1 and p2 hit the same index, and no read reaches the lower-right pixel of the block (nor, for width > 1, the lower-left one) |
| GraphPrinter.ReadBounds | src/graph_printer.hpp:477-484 | every source index read for output (k, c) is below 4 * width * height, for both the written and the intended layout |
| GraphPrinter.RowPrefixAt | src/graph_printer.hpp:479-506 | the inner loop's row of outputs holds at column c the value for (k, c) |
| GraphPrinter.RowMajorAt | src/graph_printer.hpp:506 | output (row k, column c) sits at index k * width + c of the target |
| GraphPrinter.ImagePixel | src/graph_printer.hpp:477-506 | the scaled image has width * height pixels and pixel k * width + c is the average of the four source pixels the loop reads for it |
| GraphPrinter.ScaledIsBlockMean | src/graph_printer.hpp:470-508 | with the intended reads, output (k, c) is the channel-wise mean of the 2x2 source block at rows 2k, 2k+1 and columns 2c, 2c+1 |
| GraphPrinter.UniformIsReproduced | src/graph_printer.hpp:502-506 | a source of one colour with a zero top byte scales to that same colour everywhere, as written and as intended |
| GraphPrinter.OnePixelImage | src/graph_printer.hpp:481-484 | for a 1x1 output, the written code averages s[0], s[1], s[1], s[2], the intended code s[0], s[1], s[2], s[3] |
| GraphPrinter.AsWrittenMissesSecondRow | src/graph_printer.hpp:481-484 | a block whose top row has blue 0 and whose bottom row has blue 4 comes out with blue 1 as written, against the true mean 2 |
| GraphPrinter.AverageOf | src/graph_printer.hpp:486-506 | the average at a read position is Average4 of the four values loaded there |
| GraphPrinter.PixelStep | src/graph_printer.hpp:481-506 | the index (iTimesWidth >> 2) + (j >> 1) written by one inner step is k * width + c, and the value written is the expected output pixel |
| GraphPrinter.WriteIndex | src/graph_printer.hpp:506 | (iTimesWidth >> 2) + (j >> 1) is k * width + c |
| GraphPrinter.ScaleRowAsWritten | src/graph_printer.hpp:479-507 | the inner loop as written fills output row k with the written averages and leaves later target pixels as they were |
| GraphPrinter.ScaleRow | src/graph_printer.hpp:479-507 | the inner loop with the intended reads fills output row k with the block means and leaves later target pixels as they were |
| GraphPrinter.ScaledSize | src/graph_printer.hpp:472-474 | scaledSize = (2h)(2w) = 4wh, the bound the outer loop runs to |
| GraphPrinter.ScaleBitmap2AsWritten | src/graph_printer.hpp:470-508 | scaleBitmap2 as written writes exactly target[0, width*height) with the written averages and nothing past it |
| GraphPrinter.ScaleBitmap2 | src/graph_printer.hpp:470-508 | the intended scaleBitmap2 writes exactly target[0, width*height), each pixel the mean of its 2x2 source block, and nothing past it |
| GraphPrinter.CaughtUpPeriods | src/graph_printer.hpp:232-235 | the catch-up loop advances nextDraw by a whole number m of drawDelay periods; with drawDelay > 0 it ends past now, and it stops at the first period past now |
| GraphPrinter.CatchUpDeadline | src/graph_printer.hpp:232-235 | the loop computes the caught-up deadline: later than now when drawDelay > 0, and unchanged when drawDelay is 0 or the deadline is already in the future |
| GraphPrinter.GraphPrinter.constructor | src/graph_printer.hpp:94-121 | all three buffers start 0x0 and no reset is requested |
| GraphPrinter.GraphPrinter.ResetBackBufferSize | src/graph_printer.hpp:183-186 | requesting a reset only raises the flag; the buffers are untouched until the next draw |
| GraphPrinter.GraphPrinter.DrawAndSwapBuffers | src/graph_printer.hpp:245-306 | nothing happens unless both uint16 client sides are >= 16; otherwise the back buffer is reset to (client+16) when flagged, too small or more than twice too large, the high-resolution buffer is reset to twice the back buffer when it differs, the flag is cleared and front and back swap |
| GraphPrinter.DrawnFrameFitsClient | src/graph_printer.hpp:254-262 | when client+16 fits in uint16, the buffer drawn is at least the client size and at most twice it, and is exactly client+16 after a requested reset |
| GraphPrinter.HighResFollowsBack | src/graph_printer.hpp:264-268 | after the check the high-resolution buffer is ANTI_ALIASING (2) times the back buffer in each dimension |
| Icmp.PublicIsOutsidePrivateBlocks | src/icmp.hpp:75-81 | isPublicAddress is false exactly for 10.0.0.0/8, 172.16.0.0/12 and 192.168.0.0/16 (section 3 of RFC 1918); the default endpoint 0.0.0.0 and 127.0.0.1 count as public; the older monitor applies the same three masked tests in network order (src/ping_monitor.hpp:60-72) and uses this predicate |
| Icmp.MaskSelectsBlock10 | src/icmp.hpp:78 | the first mask comparison holds exactly when the first octet is 10 |
| Icmp.MaskSelectsBlock172 | src/icmp.hpp:79 | the second holds exactly when the first octet is 172 and the second lies in 16..31 |
| Icmp.MaskSelectsBlock192 | src/icmp.hpp:80 | the third holds exactly when the address starts 192.168 |
| Icmp.MakeIcmpPingResult | src/icmp.hpp:138-168 | latency is replyTime - sentTime and errorCode is copied; status, responder and sysLatency come from the reply only when latency < timeout and the buffer parses to at least one reply, otherwise the status is IP_REQ_TIMED_OUT and the rest stays zero |
| Icmp.ResultWithResponderWasTimely | src/icmp.hpp:152-160 | a result naming a responder other than 0.0.0.0 came in before the timeout from a parsed reply |
| Icmp.SendIcmpEcho | src/icmp.hpp:209-240 | the answer is false only when the send was pending and the stop event ended the wait, and then the result is untouched; a pending code is cleared to 0 and the time after the wait is the reply time; otherwise the result is classified at once with the error code kept |
| Icmp.AnsweredCount | src/icmp.hpp:277-282 | the calls that produced a result are at most all the calls |
| Icmp.PrefixDecides | src/icmp.hpp:269-312 | what the first n calls leave in lastPrivateNode and hand to the result handler does not depend on later calls |
| Icmp.LastPrivateNodeIsLastConfirmed | src/icmp.hpp:269-312 | lastPrivateNode is 127.0.0.1 until a TTL-128 echo to a private hop returns error 0 and status 0, and afterwards the responder of the last such echo |
| Icmp.ProbeHop | src/icmp.hpp:275-289 | the tries at one TTL send 1 to 3 echoes to the target with that TTL after a 250 ms wait, retry only after a reply other than error 0 with IP_TTL_EXPIRED_TRANSIT, end on the stop event, on such a reply or on the third try, and push every result |
| Icmp.RunGrows | src/icmp.hpp:275-289 | adding one call to a run keeps the earlier calls and what they pushed |
| Icmp.HopRunSteps | src/icmp.hpp:271-289 | the target probes of a new run each sit where the loops put them: a retry at the same TTL or the first try at the next TTL |
| Icmp.HopRunKeepsConfirmations | src/icmp.hpp:271-312 | a run of target probes keeps every non-target call a confirmation of the hop found just before it, and keeps the rule that an answer from the target ends the trace |
| Icmp.HopRunCovers | src/icmp.hpp:271-289 | after the run at TTL t every TTL up to t has been probed, and a run that ended on TTL-expired or on its third try is ready for TTL t+1 |
| Icmp.HopRunFollowsLoops | src/icmp.hpp:271-289 | a run at TTL t from a state between TTLs keeps the calls where the loops put them, and when it ends without an answer from the target the state is ready for TTL t+1 |
| Icmp.AfterConfirmation | src/icmp.hpp:297-312 | a confirmation echo to the hop just found keeps every call where the loops put it and the outer loop ready for the next TTL |
| Icmp.DecisionsPrefix | src/icmp.hpp:269-335 | whether one of the first n calls decided the trace, and whether a hop among them was confirmed exactly when it needed it, does not depend on later calls |
| Icmp.HopRunGoesOn | src/icmp.hpp:275-289 | the tries at one TTL decide nothing before the last of them, and none follows a hop that still needed its confirmation |
| Icmp.LastPrivateNodeAfterTargetProbes | src/icmp.hpp:275-289 | echoes to the target never change lastPrivateNode |
| Icmp.ConfirmHop | src/icmp.hpp:297-335 | the TTL-128 echo after 50 ms to a hop found TTL-expired: the stop event ends the trace (and only it does); under FIRST_PUBLIC a public hop's result is pushed and, on error 0 and status 0, the trace ends with that echo's responder; every other answer goes on to the next TTL, a private hop that answered with error 0 and status 0 becoming lastPrivateNode; the call decides the trace exactly when the source returns |
| Icmp.DecideHop | src/icmp.hpp:291-336 | after the tries at a TTL, by the last reply r: a non-zero public TTL-expired responder ends a LAST_PRIVATE trace with lastPrivateNode and no further call; a non-zero TTL-expired responder that is private, or public under FIRST_PUBLIC, gets exactly one confirmation echo; anything else (including a public hop under FULL_TRACE) goes on to the next TTL with no further call; the outcome is Stop, Found or NextTtl exactly as the last call stopped, decided the trace or left it open |
| Icmp.TraceHop | src/icmp.hpp:273-336 | one pass of the outer loop: the tries, then the decision; it ends with Stop exactly on the stop event, with Found exactly when its last call decides the trace (the target answering the last try, the LAST_PRIVATE or the FIRST_PUBLIC rule), and otherwise goes on with no call deciding and no confirmation outstanding, every TTL up to this one probed and the loop state ready for the next |
| Icmp.FinishHop | src/icmp.hpp:277-336 | the decision after the tries: the stop event ends the trace with Stop and an answer from the target on the last try ends it with the target, neither with a further call; otherwise DecideHop's outcome, which is Found exactly when the last call decides the trace |
| Icmp.TraceRoute | src/icmp.hpp:242-340 | every call is one the loops make (TTL 0..128 in increasing order, at most 3 tries each, a confirmation exactly after each hop that needs one); no call but the last decides the trace, and the answer is true exactly when the last call does, with the target, with lastPrivateNode at the first public TTL-expired hop under LAST_PRIVATE, or with the responder of a public hop's successful confirmation under FIRST_PUBLIC, never otherwise under FULL_TRACE; false leaves traceResult alone and means the stop event fired or every TTL 0..128 was probed with no confirmation outstanding; the results pushed are those of the answered echoes to the target or to a public hop |
| Icmp.StepAt | src/icmp.hpp:271-289 | each target probe of a trace that follows the loops sits where the loops put it |
| Icmp.TargetTtlsNondecreasing | src/icmp.hpp:271 | the TTLs of the echoes to the target never decrease along the trace |
| Icmp.EqualTargetProbesAreContiguous | src/icmp.hpp:275 | the tries at one TTL follow each other with no other call in between |
| Icmp.AtMostThreeTries | src/icmp.hpp:275-289 | at most 3 echoes go to the target with one TTL, and each but the last came back without TTL-expired |
| OrderedMap.LessIrreflexive | src/utility/tree_config.hpp:53 | the std::string operator< the map orders its keys by is irreflexive |
| OrderedMap.LessTransitive | src/utility/tree_config.hpp:53 | that order is transitive |
| OrderedMap.LessTotal | src/utility/tree_config.hpp:53 | that order is total and asymmetric: two different keys are ordered one way exactly |
| OrderedMap.SortedCons | src/utility/tree_config.hpp:53 | an entry in front of a sorted map keeps it sorted exactly when its key is below every key there |
| OrderedMap.Find | src/utility/tree_config.hpp:101-103 | map::find finds nothing exactly when the key is absent, and otherwise answers the entry stored under it |
| OrderedMap.KeysCons | src/utility/tree_config.hpp:53 | the keys of an entry in front of a map are its key and the map's keys |
| OrderedMap.InsertSorted | src/utility/tree_config.hpp:111-114 | map::insert adds exactly the key to the key set and keeps the map sorted |
| OrderedMap.AssignSorted | src/utility/property_node.hpp:110 | map::operator[] with an assignment adds exactly the key to the key set and keeps the map sorted |
| OrderedMap.FindAfterInsert | src/utility/tree_config.hpp:111-114 | map::insert changes nothing when the key is present; otherwise only that key gains the value |
| OrderedMap.FindAfterAssign | src/utility/property_node.hpp:110 | after an assignment the key holds the new value and every other key keeps its own |
| OrderedMap.InsertGreatest | src/utility/tree_config.hpp:111-114 | a key above every key present is added at the end, by insert and by assignment alike |
| PingData.SortedIsPairwise | src/ping_data.hpp:112-119 | the history order, stated on neighbours, is the same as every earlier result having a send time no later than every later one |
| PingData.UpperBound | src/ping_data.hpp:112-119 | std::upper_bound answers a position within the history |
| PingData.UpperBoundSplits | src/ping_data.hpp:112-119 | std::upper_bound by send time: every result before the position was sent no later than the new one, the result at the position strictly later |
| PingData.InsertSortedKeepsOrder | src/ping_data.hpp:112-122 | inserting at the upper bound keeps the history sorted, keeps everything else in its order, puts the new result after all results sent at the same time, and adds exactly that result |
| PingData.InsertSortedShape | src/ping_data.hpp:121-122 | vector::insert at the upper bound shifts the later results up by one and leaves the earlier ones in place |
| PingData.InsertSortedPermutes | src/ping_data.hpp:121-122 | the insert adds the new result and loses none |
| PingData.SpliceShape | src/ping_data.hpp:121-122 | vector::insert at any position shifts the later elements up by one |
| PingData.SplicePermutes | src/ping_data.hpp:121-122 | vector::insert at any position adds exactly the one element |
| PingData.SpliceSorted | src/ping_data.hpp:112-122 | insertion at the upper bound of a sorted history keeps it sorted |
| PingData.CompactKeepsNewest | src/ping_data.hpp:138-144 | once the history reaches twice historySize only its newest historySize entries remain, in order; otherwise it is unchanged, and a history of at most twice the size ends below it |
| PingData.SuffixSorted | src/ping_data.hpp:138-144 | the kept newest entries of a sorted history are sorted |
| PingData.InsertedIsSorted | src/ping_data.hpp:112-122 | the history after the insert is sorted and one longer |
| PingData.CompactedIsSorted | src/ping_data.hpp:138-144 | compaction keeps the history sorted, non-empty and below twice historySize |
| PingData.AdaptiveWeightBounds | src/ping_data.hpp:127-128 | the sample weight max(1/weight, 1/n) is one of the two reciprocals, at least both, in (0, 1] for weights of at least 1, exactly 1 for the first sample, and 1/n for a negative weight |
| PingData.EwmaBetween | src/ping_data.hpp:130 | a weighted-average step lands between the old average and the sample, and on the sample with weight 1 |
| PingData.LossSample | src/ping_data.hpp:124-125 | isLost contributes 1.0 exactly when the error code or the status is non-zero, and 0.0 otherwise |
| PingData.LossStaysInUnitInterval | src/ping_data.hpp:124-131 | the loss estimate stays within [0, 1] and its percentage within [0, 100]; the first result sets it to exactly 1 or 0 |
| PingData.GridSize | src/ping_data.hpp:207-214 | the grid is the largest of 10, 25, 50 and 100 of which three cells fit in the visible height, or 5 when not even three cells of 10 fit |
| PingData.GridSizeMonotone | src/ping_data.hpp:207-214 | a taller visible range never gets a finer grid |
| PingData.RescaleInRange | src/ping_data.hpp:186-216 | the rescale keeps the scale positive, at most HEIGHT/5 and on the grid ladder; a change sets the offset to 0 and is either HEIGHT/5 with grid 1 or at most HEIGHT/20 with the ladder's grid |
| PingData.RescaleSettles | src/ping_data.hpp:188-194 | a scale already at the optimum is not rescaled again for the same mean and jitter |
| PingData.LossStep | src/ping_data.hpp:124-131 | the loss update changes only the loss and its percentage |
| PingData.CalculateStats | src/ping_data.hpp:167-217 | calculateStats leaves the loss and its percentage alone |
| PingData.LossStepInUnitInterval | src/ping_data.hpp:124-131 | the new loss is the weighted step towards the loss sample, stays within [0, 1], and its percentage is 100 times it |
| PingData.CalculateStatsMean | src/ping_data.hpp:169-175 | the last ping is the latency in milliseconds, the maximum never falls, and the mean moves by the adaptive weight to a value between the old mean and the last ping (to the last ping itself for the first sample) |
| PingData.CalculateStatsJitter | src/ping_data.hpp:177-184 | the squared jitter is the weighted step towards the squared deviation from the new mean, stays non-negative, and the jitter is its square root |
| PingData.CalculateStatsRescales | src/ping_data.hpp:186-216 | the scale is rescaled for the new mean and jitter and stays in range |
| PingData.StatsAfterInsert | src/ping_data.hpp:124-136 | a lost result changes only the loss and its percentage: the other statistics skip it |
| PingData.StatsAfterInsertInRange | src/ping_data.hpp:124-136 | the statistics after an insert keep the scale in range |
| PingData.PingData.constructor | src/ping_data.hpp:42-50 | a new history is empty, uses the configured size and weights, and starts from the fields' initial values |
| PingData.PingData.InsertPingResult | src/ping_data.hpp:107-147 | the history becomes the sorted insertion then compaction, the statistics StatsAfterInsert with n the history length after the insert, the last responder the new one, and lastResult the newest entry kept; the trace history is untouched |
| PingData.PingData.InsertIntoHistory | src/ping_data.hpp:112-144 | the history becomes the sorted insertion then compaction, and stays sorted, non-empty and below twice historySize |
| PingData.PingData.UpdateStatistics | src/ping_data.hpp:124-136 | the statistics become StatsAfterInsert of the previous ones, with the scale in range |
| PingData.PingData.InsertTraceResult | src/ping_data.hpp:149-164 | the trace history gets the result appended and then compacted, lastResult is that result, and the ping history and statistics are untouched |
| PingData.LastResultIsLatest | src/ping_data.hpp:146 | after a ping insert, _lastResult points at a result sent no earlier than any other in the history |
| PingData.LastAfterInsert | src/ping_data.hpp:138-146 | the back of the history after an insert is the new result when it was inserted at the end, and the old back otherwise |
| PingData.LastResultIsNewIffLatest | src/ping_data.hpp:112-146 | the new result is the back exactly when nothing in the history was sent later; a result that arrives out of order leaves the old back in place |
| PingData.FirstResultSetsMean | src/ping_data.hpp:172-183 | the first successful result sets the mean to its latency and the squared jitter to 0 |
| PingData.SquaredJitterNonNegative | src/ping_data.hpp:177-183 | with a jitter weight of at least 1 the squared jitter stays non-negative, so its square root is defined |
| PingMonitor.Inc8 | src/ping_monitor.hpp:203 | ++ on the uint8 hop count (declared at line 95) adds one and wraps 255 round to 0 |
| PingMonitor.AsyncPingResult | src/ping_monitor.hpp:450-457 | the worker's result carries the error, status, responder and send time it observed, and the round trip is the measured time less 0.2 ms but at least 1000 ns |
| PingMonitor.SampleUpperBound | src/ping_monitor.hpp:403-409 | std::upper_bound answers a position within the history |
| PingMonitor.UpperBoundSplitsSorted | src/ping_monitor.hpp:403-409 | in a sorted history, every sample before the upper bound was sent no later than the new one and every sample from it on strictly later |
| PingMonitor.SplitIsUnique | src/ping_monitor.hpp:403-409 | there is only one such split position |
| PingMonitor.UpperBoundSearch | src/ping_monitor.hpp:405-409 | the binary search of std::upper_bound finds that position |
| PingMonitor.InsertSample | src/ping_monitor.hpp:403-412 | pushSampleSorted makes the history one longer |
| PingMonitor.InsertSampleIsSplice | src/ping_monitor.hpp:411 | vector::insert at the upper bound keeps the samples before and after it in place |
| PingMonitor.InsertSampleSorted | src/ping_monitor.hpp:403-412 | the history stays sorted, gains exactly the new sample, and the new sample lands after every sample sent at the same time |
| PingMonitor.SpliceAtSplitSorted | src/ping_monitor.hpp:403-412 | inserting at the split keeps a sorted history sorted |
| PingMonitor.ReverseRangeShape | src/ping_monitor.hpp:466-474 | forReverseRange visits min(start, n) indices, from start-1 downwards, the last being max(start, n) - n |
| PingMonitor.ForReverseRange | src/ping_monitor.hpp:466-474 | the loop applies the body to exactly those indices, in that order |
| PingMonitor.LostCount | src/ping_monitor.hpp:382-386 | the number of samples with an error is at most the number of samples |
| PingMonitor.Percentage | src/ping_monitor.hpp:389 | a part of a whole as a percentage lies within [0, 100] |
| PingMonitor.ShareIsPercentage | src/ping_monitor.hpp:389 | the same bound for real parts |
| PingMonitor.LossPercentage | src/ping_monitor.hpp:378-390 | the loss percentage of a non-empty history lies within [0, 100] |
| PingMonitor.LossCountCoversWindow | src/ping_monitor.hpp:378-386 | the counting loop counts exactly the newest 30 samples (all of them in a shorter history) and the lost ones among them |
| PingMonitor.LossCountPrefix | src/ping_monitor.hpp:382-386 | after m rounds the loop has counted the newest m samples and the lost ones among them |
| PingMonitor.AddSampleKeepsHistory | src/ping_monitor.hpp:320-395 | processPingResult keeps the history sorted and below 4096, drops the oldest 2048 when it reaches 4096, and otherwise the new sample carries the result's error and send time and a loss within [0, 100] |
| PingMonitor.DrainTakesReadyTail | src/ping_monitor.hpp:288-296 | the drain loop takes requests from the back while they are ready and leaves the rest in place, the new back not ready |
| PingMonitor.DrainKeepsHistory | src/ping_monitor.hpp:288-296 | the drain keeps the history sorted and below 4096 |
| PingMonitor.SyncKeepsOneInFlight | src/ping_monitor.hpp:308-317 | in synchronous mode at most one request is ever pending |
| PingMonitor.NextTickIsLater | src/ping_monitor.hpp:298-317 | with a positive delay in asynchronous mode (always in synchronous mode), ping asks to be called again strictly later |
| PingMonitor.PingKeepsHistory | src/ping_monitor.hpp:284-318 | a ping tick keeps the history sorted and below 4096 |
| PingMonitor.AfterFailure | src/ping_monitor.hpp:211-215 | after a failed try the hop count stays a uint8 and the tries stay below 4 |
| PingMonitor.Failures | src/ping_monitor.hpp:211-215 | the same after any number of failures in a row |
| PingMonitor.FailuresAdvanceHops | src/ping_monitor.hpp:211-215 | k failures in a row from a fresh hop count advance it by k / 4 modulo 256 and leave k % 4 tries |
| PingMonitor.WithProbe | src/ping_monitor.hpp:219-223 | a discovery phase sends a probe exactly when nothing is pending, and leaves pending requests alone |
| PingMonitor.PingMonitor.constructor | src/ping_monitor.hpp:93-139 | "auto4" and "auto6" start the search for the first public node, any other name counts the hops to that address; the counters and the history start empty and the clocks one delay back |
| PingMonitor.PingMonitor.Complete | src/ping_monitor.hpp:436-463 | the worker fills in exactly one pending request's result |
| PingMonitor.PingMonitor.Tick | src/ping_monitor.hpp:151-155 | tick runs the current phase: the ping phase never ends and is the step PingStep; a phase change leads to pinging with no tries, the same hop count, and the hop search keeps its host |
| PingMonitor.PingMonitor.FindFirstPublicNode | src/ping_monitor.hpp:158-226 | every branch: a failed try counts towards four, a reply switches to pinging its responder at once, a public router becomes the next probe, anything else moves to the next hop; a probe goes out only when none is pending; the next tick is a second later |
| PingMonitor.PingMonitor.FindNumberOfHops | src/ping_monitor.hpp:228-282 | every branch: a failed try counts towards four, a reply from the host switches to pinging at once, a router reply with TTL expired moves to the next hop and other replies keep it; the next tick is half a second later |
| PingMonitor.PingMonitor.Ping | src/ping_monitor.hpp:284-318 | a ping tick is PingStep: drain the ready results, send when due, and answer when to be called next |
| PingMonitor.PingMonitor.SendIfDue | src/ping_monitor.hpp:298-314 | the send half of ping is AfterSend |
| PingMonitor.PingMonitor.DrainReady | src/ping_monitor.hpp:288-296 | the drain half of ping is AfterDrain and keeps the history valid |
| PingMonitor.PingMonitor.ProcessPingResult | src/ping_monitor.hpp:320-401 | processPingResult is AddSample and keeps the history sorted and below 4096 |
| PingMonitor.PingMonitor.PushSampleSorted | src/ping_monitor.hpp:403-412 | pushSampleSorted inserts at the upper bound and answers where the sample went |
| PropertyTree.IdentsEnd | src/utility/property_node.hpp:189-190 | skipIdents never moves backwards and never runs past the end of the text |
| PropertyTree.UntilEnd | src/utility/property_node.hpp:187 | skipUntil never moves backwards and never runs past the end of the text |
| PropertyTree.ParseName | src/utility/property_node.hpp:194-197 | the name scan and the whitespace after it end inside the text, at or after where they began |
| PropertyTree.ParseValue | src/utility/property_node.hpp:201-203 | the value scan ends inside the text, at or after where it began |
| PropertyTree.ParseDirect | src/utility/property_node.hpp:185-230 | parseDirect leaves the pointer inside the text, at or after where it began |
| PropertyTree.EntryAt | src/utility/property_node.hpp:194-226 | one entry leaves the pointer inside the text, at or after the name |
| PropertyTree.Parse | src/utility/property_node.hpp:175-183 | a null pointer is a successful parse that leaves the node as it was |
| PropertyTree.IdentsEndAfter | src/utility/property_node.hpp:189-190 | skipIdents reads exactly a run of name characters up to the first other character |
| PropertyTree.UntilEndAfter | src/utility/property_node.hpp:187 | skipUntil(';') stops exactly at the first ';' of a value free of ';' and NUL |
| PropertyTree.EmptyNameAt | src/utility/property_node.hpp:192-197 | whitespace, one space and '=' or '{' read as the empty name with the pointer on that character |
| PropertyTree.NamedAt | src/utility/property_node.hpp:192-197 | whitespace, a non-empty name and one space before '=' or '{' read as exactly that name, with the pointer on the '=' or '{' |
| PropertyTree.NameOf | src/utility/property_node.hpp:192-197 | after the leading whitespace the loop goes on (no NUL, no '}') and the scan reads exactly the name |
| PropertyTree.Enter | src/utility/property_node.hpp:192 | when the first non-space character is neither NUL nor '}', the loop reads one entry there |
| PropertyTree.ParseValueOf | src/utility/property_node.hpp:201-205 | " value;" reads exactly the value, its leading space skipped, with the pointer on the ';' |
| PropertyTree.ValueStep | src/utility/property_node.hpp:199-209 | `name = value;` assigns value to name (overwriting any earlier value) and the loop goes on after the ';' |
| PropertyTree.ChildStep | src/utility/property_node.hpp:213-223 | `name {` parses a child from after the '{'; when it stops on '}' the child is appended and the loop goes on after the '}' |
| PropertyTree.SpaceSkipped | src/utility/property_node.hpp:188-192 | a leading whitespace character does not change what the loop parses |
| PropertyTree.SkipWhitespace | src/utility/property_node.hpp:188-192 | a run of whitespace does not change what the loop parses |
| PropertyTree.ValueParses | src/utility/property_node.hpp:192-209 | the saved line of one value reads back as its key and its value, and the ';' is followed by the new line |
| PropertyTree.ValueRoundTrip | src/utility/property_node.hpp:192-209 | the saved line of a value whose key is greater than every key so far appends that value, and parsing goes on after the line |
| PropertyTree.AppendGreatest | src/utility/property_node.hpp:208 | assigning a key greater than every key present appends the entry at the end of the map |
| PropertyTree.ValueTextParses | src/utility/property_node.hpp:192-209 | the saved line of any value assigns it, and parsing goes on after the line |
| PropertyTree.ValueSteps | src/utility/property_node.hpp:192-209 | the loop reads an entry at the first non-space character and continues past the ';' and the new line with the value assigned |
| PropertyTree.ValuesRoundTrip | src/utility/property_node.hpp:250-253 | the saved lines of sorted readable values append exactly those values, in order |
| PropertyTree.CloseRoundTrip | src/utility/property_node.hpp:192 | indentation and '}' end a child's loop successfully with the pointer on the '}' |
| PropertyTree.ChildBodyRoundTrip | src/utility/property_node.hpp:213-218 | the saved contents of a readable child, after `{` and before `}`, parse back into that child with the pointer on the '}' |
| PropertyTree.ChildRoundTrip | src/utility/property_node.hpp:244-270 | the saved block of a readable child appends exactly that child, and parsing goes on after the block |
| PropertyTree.ChildSteps | src/utility/property_node.hpp:213-223 | a child parsed successfully up to its '}' is appended, and the blank line after it is skipped |
| PropertyTree.ChildrenRoundTrip | src/utility/property_node.hpp:260-263 | the saved children of a node, from any index on, append exactly those children in order |
| PropertyTree.ContentsRoundTrip | src/utility/property_node.hpp:250-263 | the saved values, blank line and children of a readable node parse into an empty node as exactly those values and children |
| PropertyTree.SaveRoundTrip | src/utility/property_node.hpp:175-271 | a readable tree (sorted values, keys and names of identifier characters, values with no ';', NUL or leading whitespace) saved as a root parses back successfully into a node of any name with all its values and children, up to the end of the text |
| PropertyTree.ParseStopsAtEndOrBrace | src/utility/property_node.hpp:192-229 | a successful parse stops at the end of the text or on a '}' it has not consumed |
| PropertyTree.EntryStopsAtEndOrBrace | src/utility/property_node.hpp:194-229 | the same from an entry on |
| PropertyTree.ValueStopsAtEndOrBrace | src/utility/property_node.hpp:199-209 | the same after a value |
| PropertyTree.ChildStopsAtEndOrBrace | src/utility/property_node.hpp:213-223 | the same after a child |
| PropertyTree.ParseAtEndOrBrace | src/utility/property_node.hpp:192-229 | at the end of the text or at a '}' after whitespace the parse returns true at once, consuming nothing more |
| PropertyTree.EntryFails | src/utility/property_node.hpp:199-226 | a name followed by neither '=' nor '{', or a value with no ';', makes parseDirect return false |
| PropertyTree.GrowsTransitive | src/utility/property_node.hpp:192-227 | adding to a node twice is adding to it |
| PropertyTree.ParseGrows | src/utility/property_node.hpp:185-230 | parsing only adds: the values stay sorted and no key is lost, the name stays and children are only appended, also when the parse fails |
| PropertyTree.EntryGrows | src/utility/property_node.hpp:194-226 | the same for one entry |
| PropertyTree.ValueOverwrites | src/utility/property_node.hpp:199-209 | after `name = value;` the node holds value under name, whatever it held before |
| PropertyTree.FirstOfDuplicates | src/utility/property_node.hpp:208 | "a = 1; a = 2;" first stores a = 1 |
| PropertyTree.SecondOfDuplicates | src/utility/property_node.hpp:208 | then a = 2 overwrites it |
| PropertyTree.LaterDuplicateWins | src/utility/property_node.hpp:208 | parsing "a = 1; a = 2;" succeeds with a = 2: a later duplicate key wins |
| PropertyTree.FailedChildAccepted | src/utility/property_node.hpp:213-223 | in "a { b }" the child's own parse fails on the '}' after b, yet the child a is appended and the whole parse succeeds |
| PropertyTreeText.SkipIdents | src/utility/property_node.hpp:189-190 | the skipIdents loop stops where the name scan of the parse function does |
| PropertyTreeText.SkipUntil | src/utility/property_node.hpp:187 | the skipUntil loop stops where the value scan of the parse function does |
| PropertyTreeText.ValueFails | src/utility/property_node.hpp:199-226 | a value that does not end in ';' fails the parse with the node unchanged and the pointer where the value scan stopped |
| PropertyTreeText.ChildFails | src/utility/property_node.hpp:213-226 | a child not followed by '}' fails the parse, the child discarded, with the pointer where the child stopped |
| PropertyTreeText.OtherFails | src/utility/property_node.hpp:199-226 | a name followed by neither '=' nor '{' fails the parse with the pointer after the name's whitespace |
| PropertyTreeText.ParseNameFrom | src/utility/property_node.hpp:194-197 | the name's end and the position after its whitespace, as the loop finds them, are those of the name scan |
| PropertyTreeText.ParseValueFrom | src/utility/property_node.hpp:201-203 | the value's bounds, as the loop finds them, are those of the value scan |
| PropertyTreeText.ParseDirectFrom | src/utility/property_node.hpp:185-230 | the parseDirect loop computes ParseDirect: the verdict, the node as it left it and where the pointer stopped, so every parse lemma holds for it |
| PropertyTreeText.ParseEntryFrom | src/utility/property_node.hpp:194-226 | one round of the loop either continues with the node and position the entry leaves, or is the parse's answer |
| PropertyTreeText.ParseAssignmentFrom | src/utility/property_node.hpp:199-211 | the '=' branch: a value ending in ';' is assigned and the loop goes on after the ';'; otherwise the parse fails |
| PropertyTreeText.ParseChildFrom | src/utility/property_node.hpp:213-226 | the '{' branch: a child ending on '}' is appended, whatever its own verdict, and the loop goes on after the '}'; otherwise the parse fails |
| PropertyTreeText.ParseFrom | src/utility/property_node.hpp:175-183 | parse(const char*) computes Parse, a null pointer included |
| PropertyTreeText.ContentsAssembled | src/utility/property_node.hpp:250-263 | what the values loop, the blank line and the children loop append one after the other is the node's contents |
| PropertyTreeText.FramedAssembled | src/utility/property_node.hpp:244-270 | the header, contents, '}' line and blank line of a child make up its saved block |
| PropertyTreeText.SaveContents | src/utility/property_node.hpp:250-263 | the loops over values and children append exactly the node's contents |
| PropertyTreeText.SaveDirect | src/utility/property_node.hpp:232-271 | save appends exactly Save of the node at the given indentation, so the round trip proved for Save holds for it |
| PropertyTreeText.SaveFrom | src/utility/property_node.hpp:232-271 | a root saved from indentation 0 into an empty stream gives exactly Save(t, 0, no parent) |
| PropertyNodes.FirstNamedUnique | src/utility/property_node.hpp:138-149 | findNode has exactly one answer for every list of children and name |
| PropertyNodes.PropertyNode.constructor | src/utility/property_node.hpp:44-47 | a new node has its name, no values and no children |
| PropertyNodes.PropertyNode.HasValue | src/utility/property_node.hpp:73-76 | hasValue is true exactly when the key is stored |
| PropertyNodes.PropertyNode.LoadValue | src/utility/property_node.hpp:93-104 | true exactly when the key is present and the converter reads its text, and then the variable gets the value read; otherwise the variable is unchanged |
| PropertyNodes.PropertyNode.StoreValue | src/utility/property_node.hpp:106-112 | the key holds the new text afterwards, every other key keeps its value, the map stays sorted; the answer is true exactly when the key was absent or held the empty text |
| PropertyNodes.PropertyNode.StoreConverted | src/utility/property_node.hpp:106-112 | storeValue of a typed value stores the converter's text under the same rules |
| PropertyNodes.PropertyNode.LoadOrStore | src/utility/property_node.hpp:114-124 | true exactly when the stored text loads, and then nothing changes; otherwise the variable keeps its value and its text overwrites the missing or unreadable value, so a round-tripping converter reads the variable back |
| PropertyNodes.PropertyNode.FindNode | src/utility/property_node.hpp:138-149 | the position of the first child with that name, or none when no child has it |
| PropertyNodes.PropertyNode.AppendChild | src/utility/property_node.hpp:157-161 | the node handed in becomes the last child and the values do not change |
| PropertyNodes.PropertyNode.AppendNode | src/utility/property_node.hpp:151-155 | a new empty child with that name becomes the last child |
| PropertyNodes.PropertyNode.FindOrAppendNode | src/utility/property_node.hpp:163-173 | the result is the first child with that name; a child is appended, at the end, only when there was none |
| PropertyNodes.PropertyNode.Parse | src/utility/property_node.hpp:175-230 | the answer and the node's new values and children are those of the parse function, also when the parse fails part way; the name stays and the values stay sorted |
| PropertyNodes.PropertyNode.Save | src/utility/property_node.hpp:232-271 | the text written for a root node is Save of its value |
| PropertyNodes.SaveThenParse | src/utility/property_node.hpp:175-271 | a readable node saved as a root and parsed into a fresh node of any name parses successfully and gets back all the values and children |
| StringCache.Inc32 | src/string_cache.hpp:38 | the uint32 counter's increment stays below 2^32 and adds one unless the counter is at its maximum, where it wraps to 0 |
| StringCache.IndexOf | src/string_cache.hpp:48-53 | std::find with ColoredString::operator==: the first entry whose text and two colour values equal the key's, or the end when there is none |
| StringCache.InsertByUsage | src/string_cache.hpp:143-147 | inserting into a list ordered by decreasing counter keeps it ordered and adds exactly that entry |
| StringCache.SortByUsage | src/string_cache.hpp:143-147 | the sort orders the entries by decreasing usage counter and is a permutation of them |
| StringCache.StringCache.constructor | src/string_cache.hpp:56-78 | a new cache is empty and keeps the invariant |
| StringCache.StringCache.Shrink | src/string_cache.hpp:139-151 | shrink leaves the cache as ShrinkCache of the old one: from 512 entries on, the 256 most used after the sort; below 512, unchanged |
| StringCache.StringCache.Draw | src/string_cache.hpp:90-137 | an empty string changes nothing; otherwise the cache becomes DrawCache of the old one (shrink, find, append on a miss, increment the used counter), and the invariant (distinct keys, at most 512 entries) is kept |
| StringCache.FromInput | src/string_cache.hpp:143-149 | every entry of a permutation of the cache came from the cache |
| StringCache.SortKeepsKeysDistinct | src/string_cache.hpp:143-147 | sorting keeps the keys distinct |
| StringCache.InsertKeepsKeysDistinct | src/string_cache.hpp:143-147 | inserting an entry with a new key keeps the keys distinct |
| StringCache.ShrinkKeepsMostUsed | src/string_cache.hpp:139-151 | a cache of 512 or more entries shrinks to exactly 256 of its own entries, and every kept counter is at least every removed counter; a smaller cache is unchanged |
| StringCache.ShrinkKeepsKeysDistinct | src/string_cache.hpp:139-151 | shrink only removes, so the keys stay distinct |
| StringCache.DrawHitOrMiss | src/string_cache.hpp:102-128 | after the shrink, a hit changes only the counter of the matching entry, by exactly one (uint32); a miss appends exactly one entry for the key, with counter 1 |
| StringCache.DrawKeepsKeysDistinct | src/string_cache.hpp:102-128 | draw searches before it appends, so no two entries ever have equal keys |
| StringCache.DrawStaysBounded | src/string_cache.hpp:102-123 | a cache with at most 512 entries before draw has at most 512 after |
| TextUtility.NulIndex | src/utility/utility.hpp:75 | the text c_str() shows the pointer loops ends at the first NUL, or at the end of the string when there is none |
| TextUtility.WordLen | src/utility/utility.hpp:68-71 | the length of the leading run of non-whitespace characters: all of them non-space, and the next one (if any) whitespace |
| TextUtility.SkipSpaces | src/utility/utility.hpp:63-66 | skipSpaces passes exactly the whitespace and stops on a non-space character (NUL at the latest) |
| TextUtility.SkipNonSpaces | src/utility/utility.hpp:68-71 | skipNonSpaces passes exactly the non-space characters and stops on whitespace or at the NUL |
| TextUtility.ParseWords | src/utility/utility.hpp:61-93 | parseWords returns Words of the text up to the first NUL: the maximal non-whitespace runs, in order (the same code is src/utility.hpp:51-83) |
| TextUtility.ParseStep | src/utility/utility.hpp:77-89 | one round of the loop: the run between the skipped whitespace and the next whitespace is the next word, and an empty run means no words remain |
| TextUtility.WordsFrom | src/utility/utility.hpp:77-89 | whitespace then a maximal run of non-spaces: the run is the first word and the words of the rest follow |
| TextUtility.WordsAfterSpaces | src/utility/utility.hpp:77 | leading whitespace does not change the words |
| TextUtility.WordsAfterWord | src/utility/utility.hpp:79-84 | a maximal leading run of non-spaces is the first word |
| TextUtility.WordsAreWords | src/utility/utility.hpp:61-93 | every word is non-empty and contains no whitespace (likewise src/utility.hpp:51-83) |
| TextUtility.ConcatWords | src/utility/utility.hpp:75-90 | the words concatenated give the text with every whitespace character removed (likewise src/utility.hpp:65-80) |
| TextUtility.RemoveSpacesOfWord | src/utility/utility.hpp:79-84 | removing whitespace keeps a leading word whole |
| TextUtility.NoWordsIffBlank | src/utility/utility.hpp:77-89 | there are no words exactly when the text is empty or all whitespace (likewise src/utility.hpp:67-79) |
| TextUtility.WordsSplitText | src/utility/utility.hpp:75-90 | the words are maximal: the text is the words interleaved with separators that are whitespace only, all non-empty except the first and last, so no word could be longer |
| TextUtility.SplitAfterSpace | src/utility/utility.hpp:63-66 | a leading whitespace character joins the first separator |
| TextUtility.SplitAfterWord | src/utility/utility.hpp:79-84 | a leading word is followed by a separator split of the rest |
| TextUtility.SeparatorHoldsLeadingSpace | src/utility/utility.hpp:77 | a text starting with whitespace that has words has a non-empty first separator |
| TextUtility.InsertCarriageReturns | src/utility/utility.hpp:95-110 | the loop writes WithCarriageReturns of the input: each '\n' becomes "\r\n", every other character is copied, in order (the same code is src/utility.hpp:85-100) |
| TextUtility.PrefixExtends | src/utility/utility.hpp:99-107 | one more input character appends "\r\n" for a '\n' and the character itself otherwise |
| TextUtility.WithCarriageReturnsConcat | src/utility/utility.hpp:99-107 | the conversion works character by character, so it distributes over concatenation |
| TextUtility.OutputLength | src/utility/utility.hpp:97 | the output length is the input length plus the number of '\n' (likewise src/utility.hpp:87) |
| TextUtility.NewlinesFollowCarriageReturns | src/utility/utility.hpp:99-107 | in the output every '\n' comes right after a '\r' |
| TextUtility.ConcatKeepsCarriageReturns | src/utility/utility.hpp:99-107 | joining two outputs keeps every '\n' preceded by a '\r' |
| TextUtility.NoLeadingNewline | src/utility/utility.hpp:101-104 | the output never starts with '\n' |
| TextUtility.DropInvertsInsert | src/utility/utility.hpp:99-107 | removing the '\r' before each '\n' gives back the input, so the original characters keep their order, and an existing "\r\n" becomes "\r\r\n" (likewise src/utility.hpp:89-97) |
| TextUtility.SpacesEnd | src/utility/tree_config.hpp:207-211 | the whitespace skip ends inside the text, at or after where it began |
| TextUtility.SpacesEndAfter | src/utility/tree_config.hpp:207-211 | skipping whitespace passes exactly a run of whitespace up to the first other character |
| TextUtility.SpacesEndStops | src/utility/tree_config.hpp:207-211 | the skip stops on a non-space character (NUL at the latest) and passes only whitespace |
| TextUtility.SkipSpacesFrom | src/utility/tree_config.hpp:207-211 | the skipSpaces loop stops where the whitespace skip does |
| TreeConfig.NameEnd | src/utility/tree_config.hpp:219-225 | the name scan of parseName ends inside the text, at or after where it began |
| TreeConfig.TrimmedEnd | src/utility/tree_config.hpp:229 | trimming trailing whitespace from a name never passes its start |
| TreeConfig.ParseName | src/utility/tree_config.hpp:215-232 | parseName moves the pointer forward and never past the end of the text |
| TreeConfig.ScanValue | src/utility/tree_config.hpp:239-254 | the value loop moves the pointer forward and never past the end of the text |
| TreeConfig.ParseValue | src/utility/tree_config.hpp:234-257 | parseValue moves the pointer forward and never past the end of the text |
| TreeConfig.ParseNode | src/utility/tree_config.hpp:259-298 | parseTreeConfigDirect never moves backwards, and a success stops on the node's closing '}' |
| TreeConfig.ParseEntries | src/utility/tree_config.hpp:266-298 | the entry loop stops on '}' when it succeeds and never renames the node it fills |
| TreeConfig.EntryAt | src/utility/tree_config.hpp:270-297 | one entry after its name: stops on '}' when the parse succeeds and leaves the node's name alone |
| TreeConfig.ParseTreeConfig | src/utility/tree_config.hpp:200-205 | a null pointer fails and leaves the node as it was |
| TreeConfig.NameEndAfter | src/utility/tree_config.hpp:219-225 | the name scan passes exactly the printable characters up to the first '=', '{' or '}' |
| TreeConfig.ParseNameOf | src/utility/tree_config.hpp:215-232 | whitespace, a readable name, a space and '=' or '{': parseName reads exactly that name and stops on the '=' or '{' |
| TreeConfig.ParseNameAtClose | src/utility/tree_config.hpp:215-232 | whitespace then '}': parseName reads the empty name and stops on the '}' |
| TreeConfig.TrimmedOneSpace | src/utility/tree_config.hpp:229 | the single space the serialiser writes after a name is trimmed away |
| TreeConfig.ScanEscaped | src/utility/tree_config.hpp:239-254 | the value loop undoes the serialiser's escaping: an escaped value followed by ';' reads back as the value, stopping on that ';' |
| TreeConfig.ParseValueOf | src/utility/tree_config.hpp:234-257 | a space, an escaped readable value and ';': parseValue reads the value and stops on the ';' |
| TreeConfig.SpaceSkipped | src/utility/tree_config.hpp:217 | whitespace before an entry does not change what the entry loop does |
| TreeConfig.SkipWhitespace | src/utility/tree_config.hpp:217 | a whole run of whitespace before an entry is skipped |
| TreeConfig.ValueStep | src/utility/tree_config.hpp:270-280 | name '=' value ';' stores the value with map::insert and the loop continues after the ';' |
| TreeConfig.ChildStep | src/utility/tree_config.hpp:281-289 | name '{' and a child that parses: the child is appended and the loop continues after its '}' |
| TreeConfig.CloseStep | src/utility/tree_config.hpp:290-293 | '}' after an empty name ends the node successfully, with the node unchanged |
| TreeConfig.OpenStep | src/utility/tree_config.hpp:259-266 | after the '{' the node's entries are read |
| TreeConfig.EntryParses | src/utility/tree_config.hpp:326-344 | in the text of one value the parser reads the key up to the '=' and the unescaped value up to the ';' |
| TreeConfig.EntryRoundTrip | src/utility/tree_config.hpp:326-344 | the text the serialiser writes for one value is read back into that value |
| TreeConfig.EntriesRoundTrip | src/utility/tree_config.hpp:326-349 | the serialised values of a sorted map are read back, in order, into the same map |
| TreeConfig.ChildParses | src/utility/tree_config.hpp:314-322 | in a serialised child the parser reads its name up to the '{' |
| TreeConfig.BodyEndsInNewline | src/utility/tree_config.hpp:361 | every serialised node ends in "}\n" |
| TreeConfig.ChildRoundTrip | src/utility/tree_config.hpp:351-354 | a serialised readable child is read back and appended as the same child |
| TreeConfig.ChildrenRoundTrip | src/utility/tree_config.hpp:351-354 | the serialised children are read back, in order, as the same children |
| TreeConfig.CloseRoundTrip | src/utility/tree_config.hpp:356-361 | the indentation and '}' the serialiser closes a node with end the entry loop successfully |
| TreeConfig.BodyRoundTrip | src/utility/tree_config.hpp:322-361 | a serialised body is read back as the same values and children under the name being parsed into |
| TreeConfig.SerializeRoundTrip | src/utility/tree_config.hpp:300-369 | parseTreeConfig of serializeTreeConfig of a readable root succeeds into a fresh node and gives back its values and children, stopping on the final '}' |
| TreeConfig.NameEndStops | src/utility/tree_config.hpp:219-225 | the name scan passes only printable non-delimiters and stops on a delimiter or a non-printable character |
| TreeConfig.TrimmedEndStops | src/utility/tree_config.hpp:229 | trimming removes only whitespace and stops at the start or on a non-space |
| TreeConfig.ParsedNameIsTrimmed | src/utility/tree_config.hpp:215-232 | every parsed name is printable, holds no '=', '{' or '}', has no surrounding whitespace, and the pointer stops on a delimiter or a non-printable character |
| TreeConfig.ScanValueStops | src/utility/tree_config.hpp:239-254 | the value loop stops only on the terminating NUL or an unescaped ';' |
| TreeConfig.ParseValueStops | src/utility/tree_config.hpp:234-257 | parseValue stops only on the NUL or a ';' |
| TreeConfig.ParseNeedsOpeningBrace | src/utility/tree_config.hpp:259-264 | a text that does not start, after whitespace, with '{' fails to parse |
| TreeConfig.GrowsTransitive | src/utility/tree_config.hpp:266-298 | what each round of the loop keeps, a run of rounds keeps |
| TreeConfig.EntriesKeep | src/utility/tree_config.hpp:266-298 | parsing only adds: the name stays, the values stay sorted, children are only appended, and a value already stored is never replaced, so of two equal keys the first wins |
| TreeConfig.EntryKeeps | src/utility/tree_config.hpp:270-297 | one entry only adds to the node |
| TreeConfig.ValueKeeps | src/utility/tree_config.hpp:270-280 | storing with map::insert keeps a value already stored under that key |
| TreeConfig.ChildKeeps | src/utility/tree_config.hpp:281-289 | a parsed child is appended and nothing else changes |
| TreeConfig.ValuesRoundTrip | src/utility/tree_config.hpp:326-349 | the serialised values and the new line after them are read back into the node being filled, which then holds exactly those values |
| TreeConfig.ChildrenThenClose | src/utility/tree_config.hpp:351-361 | the serialised children and the closing indentation and '}' are read back, ending the node successfully with exactly those children |
| TreeConfigText.ParseNameFrom | src/utility/tree_config.hpp:215-232 | the two loops of parseName compute ParseName: the name read and where the pointer stops |
| TreeConfigText.ScanValueStep | src/utility/tree_config.hpp:241-252 | one character of the value loop: a backslash that is not itself escaped is dropped, anything else is kept |
| TreeConfigText.ParseValueFrom | src/utility/tree_config.hpp:234-257 | the loop of parseValue computes ParseValue: the unescaped value and where the pointer stops |
| TreeConfigText.ParseNodeFrom | src/utility/tree_config.hpp:200-299 | the loop of parseTreeConfigDirect computes ParseNode: verdict, filled node and final position |
| TreeConfigText.ParseEntryFrom | src/utility/tree_config.hpp:268-297 | one round of the loop either continues further along with the same outcome or is the outcome |
| TreeConfigText.ParseAssignmentFrom | src/utility/tree_config.hpp:270-280 | the '=' branch fails without a ';' and otherwise stores the value and continues after the ';' |
| TreeConfigText.ParseChildFrom | src/utility/tree_config.hpp:281-289 | the '{' branch appends the child even when its parse fails, and continues after its '}' otherwise |
| TreeConfigText.ParseTreeConfigFrom | src/utility/tree_config.hpp:301-304 | parseTreeConfig computes ParseTreeConfig |
| TreeConfigText.AppendEscaped | src/utility/tree_config.hpp:332-341 | the escaping loop appends the value with a backslash before every ';' and '\' |
| TreeConfigText.AppendEntryText | src/utility/tree_config.hpp:328-343 | the pieces appended for one value form that value's line |
| TreeConfigText.AppendEntries | src/utility/tree_config.hpp:326-344 | the values loop appends every value on its own line, in key order |
| TreeConfigText.BodyAssembled | src/utility/tree_config.hpp:326-361 | the values, the new line, the children and the closing brace appended one by one form the body |
| TreeConfigText.SerializeAssembled | src/utility/tree_config.hpp:306-361 | what the serialiser appends in turn forms the node's text |
| TreeConfigText.SerializeTreeConfigDirect | src/utility/tree_config.hpp:306-362 | serializeTreeConfigDirect appends exactly Serialize of the node, which SerializeRoundTrip reads back |
| TreeConfigText.SerializeTreeConfigFrom | src/utility/tree_config.hpp:364-369 | serializeTreeConfig is the node's text from an empty string |
| TreeConfigNodes.FirstNamedUnique | src/utility/tree_config.hpp:146-157 | findNode has exactly one answer for each list of children and name |
| TreeConfigNodes.TreeConfigNode.constructor | src/utility/tree_config.hpp:58-61 | a new node has its name, no values and no children |
| TreeConfigNodes.TreeConfigNode.HasValue | src/utility/tree_config.hpp:83-86 | hasValue is true exactly when some value is stored under the key |
| TreeConfigNodes.TreeConfigNode.LoadValue | src/utility/tree_config.hpp:98-109 | loadValue succeeds exactly when the key is present and its text converts; on failure the variable is untouched |
| TreeConfigNodes.TreeConfigNode.StoreValue | src/utility/tree_config.hpp:111-114 | storeValue is map::insert: true and the key holds the value when it was absent, false and nothing changes when it was present; other keys keep their values |
| TreeConfigNodes.TreeConfigNode.StoreConverted | src/utility/tree_config.hpp:116-120 | storing a typed value inserts its converted text, with the same answer |
| TreeConfigNodes.TreeConfigNode.LoadOrStore | src/utility/tree_config.hpp:122-132 | loads when it can; otherwise answers false and inserts the variable's text, which leaves the unreadable text of a present key alone; an absent key is afterwards read back as the variable by a round-tripping converter |
| TreeConfigNodes.TreeConfigNode.FindNode | src/utility/tree_config.hpp:146-157 | findNode answers the first child with the name, or none when no child has it |
| TreeConfigNodes.TreeConfigNode.AppendChild | src/utility/tree_config.hpp:174-179 | appendNode of a made node adds it as the last child and answers it |
| TreeConfigNodes.TreeConfigNode.AppendNode | src/utility/tree_config.hpp:181-185 | appendNode by name adds an empty child with that name at the end and answers it |
| TreeConfigNodes.TreeConfigNode.FindOrAppendNode | src/utility/tree_config.hpp:187-197 | answers the first child with the name; only when there is none is an empty one appended |
| TreeConfigNodes.TreeConfigNode.Parse | src/utility/tree_config.hpp:301-304 | parseTreeConfig leaves the node as ParseTreeConfig says, also after a failure part way |
| TreeConfigNodes.TreeConfigNode.Serialize | src/utility/tree_config.hpp:364-369 | serializeTreeConfig of a root node gives SerializeTreeConfig of its value |
| TreeConfigNodes.SerializeThenParse | src/utility/tree_config.hpp:300-369 | a readable root serialised and parsed into a new node of any name succeeds and has the same values and children |

## Left out

- Windows ICMP calls (`IcmpSendEcho`, `IcmpSendEcho2Ex`, `IcmpParseReplies`, `GetIpErrorString`), `inet_addr`/`inet_ntoa` and the waits on events: the echo is an oracle, the reply parse a count, the stop event a flag, and `inet_addr` of the host name a parameter of the `PingMonitor` constructor.
- Status strings, `log` and the log file, timestamps (`makeTimeStamp`, `makeTimestampString`, `makeLogString`): text for display only.
- Threads: `std::async` and the futures of `_pendingRequests` become requests whose result is present or not, and `PingMonitor.Complete` stands for the worker finishing one; the `notify` callback is dropped. The graph printer's thread and locks are not modelled.
- `PingMonitor.AddSample`: the window mean and jitter of each sample (`roundtripTimeMean`, `roundtripTimeJitter`, src/ping_monitor.hpp:330-376) are not modelled; they are floating-point averages with `sqrt`.
- `PingData.PingData.constructor`: the four settings are parameters instead of being read with `loadOrStore` from a "stats" node, and it requires a history size of at least 1 and non-zero weights; with a size of 0 the source reads the back of an empty vector, and with a weight of 0 it divides by zero and works on an infinite double, which the model over `real` cannot express. Negative weights are accepted: `std::max` then picks 1/n, as `AdaptiveWeightBounds` states.
- `PingData.CalculateStats`: double arithmetic is modelled over `real`, and `std::sqrt` is the parameter `sqrt`, about which nothing is assumed.
- `PingData.Rescale`: a non-positive `2 * mean + jitter` is taken to leave the scale alone, which is what the 20% test does with the infinite or NaN optimum double arithmetic gives.
- `CanvasDrawing.MergeColors`: the weight is the integer w = fastround(weight * 256) in [0, 256] (src/canvas_drawing.hpp:117); the rounding of the double and weights outside [0, 1] are not modelled.
- Canvas creation (GDI `MemoryCanvas`), `Polyline`, text output, fonts and all floating-point line drawing (`drawPrettyLine`, `drawSawLines`, `drawGraph`, src/ping_plotter.hpp).
- `StringCache.StringCache.Draw`: the rendering of a string into its bitmap on a miss and the final `copyCanvasRect` of it are not modelled; only the cache bookkeeping is. `getStaticStringCache` (a thread-local global keyed by the font) is not part of this model.
- `StringCache.SortByUsage`: `std::sort` is not stable, so which of several entries with equal counters survive a shrink is unspecified; the model fixes one order and the eviction lemmas hold for any order of ties.
- `GraphPrinter.DrawnFrameFitsClient`: assumes client+16 fits in `uint16`; for larger clients the source's conversion wraps (modelled by `GraphPrinter.Uint16`) and no bound is stated.
- `TreeConfigNodes.TreeConfigNode` and `PropertyNodes.PropertyNode`: the parent pointer and node identity are not modelled (children are values); the serialiser's test `node.parent() != nullptr` is the flag `hasParent`, true for every child and false for the root. `appendNode` of a made node sets that node's parent in `TreeConfigNode` and not in `PropertyNode`; with values this difference does not show.
- `findNodes` (src/utility/tree_config.hpp:159-172) and `loadOrStoreIndirect` (src/utility/tree_config.hpp:134-144): not modelled; they are a filter over the children and a wrapper that returns the variable of `loadOrStore`.
- The numeric converters built on `std::stoi`, `std::stod` and friends, and the `Color` converter built on `sscanf`: library parsing whose results are not modelled; the converters are a record of a load and a store function, and the string and bool ones are modelled.
- `PropertyNode::triggerSave`, `setSaveOnDestruct` and the file stream of `save`: file I/O; `save` writes to a string.
- `TreeConfig.Serialize` and `PropertyTree.Save`: the indentation is an unbounded `nat`; the source's `std::size_t` (tree config) cannot overflow at any depth a tree in memory reaches, and the `std::uint16_t` of `PropertyNode::save` wraps only at a nesting depth of 65536, which the model does not capture.
- UTF conversions, error classes, the clock wrapper and the Win32 wrappers: thin layers over the operating system.

## Findings

| source | as written | input that shows it | evidently intended | confidence | as-written member | corrected member |
|---|---|---|---|---|---|---|
| src/canvas_drawing.hpp:177-183 | `fillCanvasRect` computes `y` from rect.top and never uses it (nor `h`); the row loop starts at row 0, so it fills rows [0, height) | a 1x1 rectangle at (0,1) on a 2x2 canvas: row 0 is filled and row 1 is not | fill the rows [top, bottom) of the rectangle | not executed | CanvasDrawing.FillIgnoresTop | CanvasDrawing.FillCanvasRect |
| src/graph_printer.hpp:481-484 | `scaleBitmap2` loads p1 and p2 from the same index and never reads the second source row of a block | a block whose top row has blue 0 and bottom row blue 4 gives blue 1 instead of 2 | average the 2x2 block: offsets 0 and 1 in row 2k, and the same in row 2k+1 | not executed | GraphPrinter.AsWrittenMissesSecondRow | GraphPrinter.ScaleBitmap2 |
| src/utility/tree_config.hpp:390-441 | the bool `loadValue` accepts the empty text, since `processed` (0) equals its size, and then copies the uninitialised temporary into the variable; the bool converter of src/utility/property_node.hpp:293-305 has the same code | `loadValue` of "" | fail on every text other than "true" or "false" | not executed | Converters.AsWrittenAcceptsEmpty | Converters.LoadBool |
