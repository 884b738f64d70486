# Verified model of the FD face-tracking service

FD reads video streams, finds and tracks faces in their frames, recognises them, and publishes the
results. This project models the parts of it whose behaviour is not obvious from any single function,
and proves what they do for every input, every run and every interleaving.

| file | what it models |
|---|---|
| `Geometry.dfy` | boxes, IoU and its metric properties |
| `Nms.dfy` | greedy non-maximum suppression, the best-face choice |
| `Detect.dfy` | anchor decoding, the in-place size filter |
| `Tracking.dfy` | what one tracker update and one recognition pass mean |
| `Tracker.dfy` | the tracker object: shared tracks, updated in place |
| `TrackRuns.dfy`, `Pacing.dfy` | whole runs of a tracker: names, population, boxes, recognition pacing |
| `Hits.dfy`, `Events.dfy` | what the hit counter counts, and which events a frame publishes |
| `Pipeline.dfy` | one tracker per stream, `ProcessFrame` as a step of those runs |
| `Jpeg.dfy` | splitting FFmpeg's output into JPEG images |
| `Lifecycle.dfy` | stream start, stop and delete across API, ingestor and ingestion goroutines |
| `Requests.dfy` | what a start, stop or delete request achieves, from handler to goroutine |
| `Dispatch.dfy` | round-robin frame dispatch to the vision workers |
| `Hub.dfy` | the WebSocket hub and its clients |
| `Float16.dfy` | half-precision and bfloat16 conversion |
| `Vectors.dfy` | embedding normalisation and cosine similarity |
| `Image.dfy` | nearest-neighbour resizing and tensor layout |
| `Common.dfy` | arithmetic facts shared by the above |

`dafny verify dfyconfig.toml` checks everything.

## How the source is modelled

- Coordinates, confidences and vector components are exact reals; `math.Sqrt` enters through the fact that
  characterises it. Time is an integer clock that never goes back.
- Go map iteration and `sort.Slice` promise no order. Iteration picks any remaining key; `Nms` takes the
  order the sort leaves behind as an argument and is proved for all of them.
- Objects the source shares and updates in place (`Track`, `Tracker`, `Pipeline`, the byte reader, RGBA
  images, the slices of `nms`, the size filter and `normalize`) are classes and arrays. Their methods are
  proved against functions on values; the theorems about runs are about those functions.
- `ProcessFrame` starts from the detector's survivors. What recognition meets (an empty crop, a failed
  embedding, the clock readings, a failed upload) is an argument, one `Attempt` per reported track. Frames
  without a surviving detection never reach the tracker, so ages count calls of `Update`, not frames.
- The concurrent parts are step systems: one step is one critical section, channel operation, database
  access, publish or metric update, and a run is any sequence of enabled steps. Goroutines that have
  stopped or channels that are full simply have no step.
- In `Lifecycle` commands reach one ingestor through its one subscription callback, one at a time, the
  ingestor does not crash and its status writes succeed. Handler database calls may fail, commands may be
  lost, extraction and URL resolution may go either way, and shutdown may come at any time. One command at
  a time matters: the existence check and the insertion of `startStream` are separate critical sections
  (`Lifecycle.OverlappingCallbacksRace`).
  Calling `StopAll` adds nothing to the shutdown step, which already cancels every stream's context.
- In `Float16` floats are bit patterns. The one floating-point addition of the subnormal path is given as
  bits, proved to be the correctly rounded sum (`Float16.MagicSum`), and so is the one subtraction on the
  way back, which is exact (`Float16.MinusMagicIsExact`).

## Where the code differs from what one might expect

- `Hits` is documented as consecutive detections; the code never resets it, and `Hits.HitsCountCalls` says
  what it counts and when that is the same.
- The comment on the retry delay lists 2, 4 and 8 seconds; the code goes on to 32, 62 in total.
- Two streams of bytes that a JPEG reader must treat alike are split differently: fill bytes before a
  marker, allowed by section B.1.1.2 of ITU-T T.81, hide it when they make the run of FF bytes even
  (`Jpeg.FirstMarkerByParity`, `Jpeg.FillByteHidesEnd`).
- Confidence ties let the unstable sort decide who survives suppression, overlap ties let map iteration
  decide who gets a track; `Nms.SurvivorsAreUnique` and `Tracking.MatchIgnoresMapOrder` say exactly when.
- Model outputs can decode to inverted boxes; `Detect.DecodedOrder` says exactly which.
- A stream can stay "starting" for ever: its start was refused as already running after its goroutine had
  written the last status and before it had left the map (`Lifecycle.StartCanGoUnanswered`);
  `Lifecycle.RestingStartWasTooLate` says exactly when.
- A stop can overtake its start, leaving a goroutine at work for a stream marked "stopped"
  (`Lifecycle.StopOvertakesStart`); `Lifecycle.LiveRowIsRunning` says exactly when.
- A stopped YouTube stream can still end as "error" (`Lifecycle.StoppedYoutubeCanFail`);
  `Lifecycle.CancelledFailsOnlyInResolution` says exactly when.
- The events API treats stream and track id together as an identifier; with two workers they are not one
  (`TrackRuns.WorkersCollide`).

## Model

| member | source | states |
|---|---|---|
| Geometry.IouRange | internal/vision/detect.go:251-267 | the overlap ratio of boxes with ordered corners is in [0, 1]; solid boxes have a positive union and reach 1 only when equal |
| Geometry.IouSymmetric | internal/vision/detect.go:251-267 | the ratio is symmetric, inverted boxes included |
| Geometry.IouTriangle | internal/vision/detect.go:251-267 | 1 - IoU obeys the triangle inequality |
| Geometry.StrongOverlapIsUnique | internal/vision/detect.go:214-267 | two boxes within 0.4 of each other cannot both overlap a third by more than 0.7 |
| Nms.Nms | internal/vision/detect.go:214-249 | for any order the sort may leave, the array holds that order, the result is the recursive greedy selection, survivors pairwise have IoU at most the threshold, and what is gone has a larger IoU with a survivor of no lower confidence |
| Nms.GreedyIsFlagged | internal/vision/detect.go:223-248 | the selection is the one of the flags the loops compute: kept exactly if no kept detection before it has an IoU above the threshold with it |
| Nms.SuppressAgainst | internal/vision/detect.go:232-239 | the inner loop switches off exactly the later kept detections whose IoU is above the threshold |
| Nms.GreedySnoc | internal/vision/detect.go:228-240 | one more, less confident, detection survives exactly when it clashes with no survivor |
| Nms.SurvivorsSeparated | internal/vision/detect.go:228-240 | no survivor overlaps an earlier survivor by more than the threshold |
| Nms.SurvivorsAmong | internal/vision/detect.go:242-248 | survivors are a sub-multiset of the input and the most confident detection is first |
| Nms.SurvivorsDescending | internal/vision/detect.go:219-248 | survivors keep descending confidence |
| Nms.Covered | internal/vision/detect.go:228-240 | every suppressed detection clashes with a survivor of no lower confidence |
| Nms.SurvivorsAreUnique | internal/vision/detect.go:219-248 | every order the unstable sort may leave gives the same survivors if and only if, of any two different detections of equal confidence, a survivor of higher confidence suppresses one |
| Nms.TieDecides | internal/vision/detect.go:219-221 | two different equally confident detections that no better survivor suppresses give two legal sort results with different survivors |
| Nms.TieDecidesSurvivor | internal/vision/detect.go:219-221 | two equally confident overlapping faces are such a case |
| Nms.SecondPassRemovesNothing | internal/vision/detect.go:214-249 | suppressing the survivors again removes nothing, however ties are re-sorted |
| Nms.StrongSurvivorIsUnique | internal/vision/detect.go:127-127 | among survivors at 0.4 at most one overlaps a given box by more than 0.7 |
| Nms.BestFace | internal/vision/pipeline.go:311-317 | the loop returns the first detection of highest confidence |
| Nms.BestSurvivorIsBestRaw | internal/vision/pipeline.go:303-317 | a best survivor is a best raw detection |
| Detect.ParseStride | internal/vision/detect.go:144-188 | the loops over one feature map emit, in order, exactly the anchors that reach the threshold, each decoded at the grid cell its running number names |
| Detect.ParseDetections | internal/vision/detect.go:133-192 | all three strides, one after the other |
| Detect.Cell | internal/vision/detect.go:147-185 | the running anchor number stays in bounds and determines row, column and anchor |
| Detect.ParsedInFrame | internal/vision/detect.go:166-183 | whatever the model outputs, decoded boxes lie in the frame and reach the threshold |
| Detect.BoxAroundCorner | internal/vision/detect.go:148-170 | for every stride, column, row and anchor, the edges lie at the four predicted distances from the scaled corner of the cell wherever the frame reaches, and enclose it if the distances are not negative |
| Detect.Proportions | internal/vision/detect.go:136-137 | that corner is to the frame as column or row times stride is to the input, and an output is worth a stride |
| Detect.LandmarksAroundCorner | internal/vision/detect.go:172-177 | the five landmarks lie at their predicted offsets from the same corner |
| Detect.PickedAnchors | internal/vision/detect.go:139-186 | one feature map yields exactly the anchors that reach the threshold, each once, in order |
| Detect.ParsedInThree | internal/vision/detect.go:139-192 | the three feature maps follow one another |
| Detect.FilterSmall | internal/vision/pipeline.go:164-180 | filtering in the shared slice equals order-preserving filtering of its original contents, and keeps exactly the boxes with both sides at least the minimum |
| Detect.FilteredStaySeparated | internal/vision/pipeline.go:164-180 | what passes the size filter is still pairwise within the suppression threshold |
| Detect.DetectedBoxesAreGood | internal/vision/pipeline.go:154-185 | what reaches the tracker lies in its frame with both sides at least the minimum |
| Detect.DecodedOrder | internal/vision/detect.go:158-170 | a decoded box has its corners in order if and only if, on each axis, the two predicted distances add up to at least zero, or an unclamped edge is outside the frame on its own side |
| Detect.DecodingCanInvert | internal/vision/detect.go:158-170 | with tensors of the 640 x 640 model, decoding alone can yield an inverted box |
| Tracking.TrackIdInjective | internal/vision/track.go:109-110 | generated names differ for different numbers and are never the empty string |
| Tracking.TrackIdReads | internal/vision/track.go:110-110 | a name is the stream, an underscore and the number in decimal without leading zeros |
| Tracking.MatchIgnoresMapOrder | internal/vision/track.go:62-101 | the loops give the same match for every order of the one track list if and only if every matched detection overlaps its track strictly more than any other track still free at its turn |
| Tracking.MatchByIsStable | internal/vision/track.go:71-101 | every order of the list gives a match that is injective, above 0.3 and stable |
| Tracking.StableComesFromOrder | internal/vision/track.go:62-84 | every such match is what the loops find for some order: the winners in detection order, then the rest |
| Tracking.NoTiesNoDispute | internal/vision/track.go:79-83 | in particular, if no detection overlaps two tracks equally by more than the threshold |
| Tracking.MatchByIou | internal/vision/track.go:71-101 | a detection gets a track of IoU above 0.3 that no free track beats, and none only if every free track has at most 0.3 |
| Tracking.StrongOverlapOutcome | internal/vision/track.go:71-101 | after suppression, a detection loses a track it overlaps by more than 0.7 only to a better one of its own or to an earlier detection overlapping it by less than 0.7 |
| Tracking.OwnersDistinct | internal/vision/track.go:86-118 | the tracks that end up with the detections of one call are all different |
| Tracking.OwnerIsNewOrMatched | internal/vision/track.go:104-118 | an unmatched detection gets a name not in use, a matched one an existing track |
| Tracking.UpdateWellFormed | internal/vision/track.go:50-134 | every track stays filed under its own generated name |
| TrackerObject.Tracker.Update | internal/vision/track.go:50-134 | the new tracks, counter and reports are those of a match that is injective, above 0.3 and stable against the boxes before the call |
| TrackerObject.Tracker.AgeAll | internal/vision/track.go:55-57 | every track gets one call older and nothing else changes |
| TrackerObject.Tracker.TrackList | internal/vision/track.go:62-65 | the list holds each track once, in any order |
| TrackerObject.Tracker.BestTrack | internal/vision/track.go:72-84 | the loop over the list finds its first unmatched track of largest overlap above the threshold |
| TrackerObject.Tracker.MatchDetections | internal/vision/track.go:67-101 | the match is the one the list gives against the boxes before the loop, and stable, although the loop overwrites boxes |
| TrackerObject.Tracker.CreateTracks | internal/vision/track.go:104-124 | one new, distinct, newly numbered track per unmatched detection; old tracks untouched |
| TrackerObject.Tracker.Sweep | internal/vision/track.go:127-131 | exactly the tracks older than maxAge are gone |
| TrackerObject.Tracker.ShouldRecognize | internal/vision/track.go:137-145 | the pacing test on the track object |
| TrackerObject.Tracker.TrackCount | internal/vision/track.go:148-152 | the number of live tracks |
| TrackRuns.ReportsAreOwners | internal/vision/track.go:96-123 | each update reports every detection exactly once, as new exactly if unmatched |
| TrackRuns.ReportsDistinct | internal/vision/track.go:96-123 | no track is reported twice by one update |
| TrackRuns.ReportOrder | internal/vision/track.go:96-123 | matched detections are reported first, then new tracks, each in detection order |
| TrackRuns.StepExists | internal/vision/pipeline.go:183-284 | every stable match and every recognition outcome has a next state |
| TrackRuns.NamesNeverReused | internal/vision/track.go:109-118 | over a whole run no name is handed out twice, even after deletion, and live tracks bear names handed out |
| TrackRuns.WorkersCollide | cmd/worker/main.go:88-124 | of the names two workers have issued for a stream one list begins the other, and they share a name if and only if both have opened a track |
| TrackRuns.FirstFaceRun | internal/vision/pipeline.go:333-340 | such runs exist: one frame with one face |
| TrackRuns.TieAllowsTwoMatches | internal/vision/track.go:72-84 | a run whose second frame, one face midway between two tracks, has two stable matches that leave the tracks in different places |
| TrackRuns.StepAges | internal/vision/track.go:54-131 | after a call a track is fresh with its detection's box, or one call older with its old box, and never older than maxAge |
| TrackRuns.RunPopulated | internal/vision/track.go:50-134 | after each call exactly its detections are fresh, tracks seen k calls ago are at most the detections of that call, none is older than maxAge |
| TrackRuns.TrackCountBound | internal/vision/track.go:148-152 | the track count is at most the detections of the last maxAge + 1 calls |
| Pacing.BoxProvenance | internal/vision/track.go:86-118 | a track last seen k calls ago carries the box and confidence of a detection of exactly that call |
| Pacing.StoredBoxesAreGood | internal/vision/pipeline.go:164-185 | if every frame hands over good boxes, stored boxes are good for the frame they came from, and matching overlaps are proper ratios with positive union |
| Pacing.DetectedRunIsGood | internal/vision/pipeline.go:154-185 | so it is in every run whose frames come from decoding, suppression and the size filter, whatever the model outputs |
| Pacing.DetectedStrongOverlap | internal/vision/track.go:71-101 | in every such run a detection loses a track it overlaps by more than 0.7 only to a better one of its own or to an earlier detection overlapping it by less than 0.7 |
| Pacing.RunPaced | internal/vision/pipeline.go:188-281 | events of one track are at least the interval apart and only its first can carry a snapshot |
| Pacing.WindowBound | internal/vision/pipeline.go:188-281 | at most 1 + T / interval events of one track in any window of length T |
| Hits.HitsCountCalls | internal/vision/track.go:86-118 | over whole runs hits is the number of calls in which the track owned a detection, and the number of consecutive ones if and only if no call missed the track |
| Hits.HitsSurviveABreak | internal/vision/track.go:86-118 | a run in which a track has two hits and one in a row |
| Events.EventsOfStep | internal/vision/pipeline.go:188-281 | in every frame of every run a reported track gets exactly one event if its face can be cut out and embedded and it is new, or has hits enough and every earlier event at least the interval ago, and none otherwise; the event carries box and confidence of its detection |
| Events.OthersGetNone | internal/vision/pipeline.go:188-281 | tracks that are not reported get no event |
| Events.RunRemembers | internal/vision/pipeline.go:214-215 | a track with an embedding remembers the time of one of its events |
| Pipeline.ProcessUpdates | internal/vision/pipeline.go:188-281 | the loop over shared tracks has the specified effect on the tracker and publishes the specified events |
| Pipeline.Pipeline.GetTracker | internal/vision/pipeline.go:333-340 | the stream's tracker, created empty on first use |
| Pipeline.Pipeline.ProcessFrame | internal/vision/pipeline.go:160-284 | a frame with a surviving detection is one step of its stream's run, any other frame none, and no other stream's tracker changes |
| Jpeg.ScanPastAligned | internal/ingest/ffmpeg.go:165-182 | aligned bytes hide no marker, whatever follows |
| Jpeg.ScanSkipsAligned | internal/ingest/ffmpeg.go:165-182 | what the scan skips before a marker is aligned |
| Jpeg.FirstMarkerByParity | internal/ingest/ffmpeg.go:165-182 | the scan finds the first FF m exactly when the run of FF bytes into it is odd; otherwise it carries on behind it |
| Jpeg.WithoutFillBytes | internal/ingest/ffmpeg.go:165-182 | with no adjacent FF FF the scan is the search for the first occurrence |
| Jpeg.EmittedIffSmall | internal/ingest/ffmpeg.go:184-211 | once started, a complete image is emitted if and only if its length is at most 10 * 1024 * 1024 + 2 |
| Jpeg.PieceIsValid | internal/ingest/ffmpeg.go:184-211 | in bytes and numbers, what gaps, bodies and sizes a joining may have |
| Jpeg.RoundTrip | internal/ingest/ffmpeg.go:119-211 | joining images with aligned bodies and gaps, then splitting, gives back exactly those images in order |
| Jpeg.SplitIsJoined | internal/ingest/ffmpeg.go:119-211 | every stream is such a joining of the images the splitter emits, and a tail without any |
| Jpeg.SplitsExactlyWhenJoined | internal/ingest/ffmpeg.go:119-211 | exactly which streams split into a given list of images |
| Jpeg.FillByteHidesEnd | internal/ingest/ffmpeg.go:195-204 | a legal fill byte before the end marker loses the image |
| Jpeg.Reader.FindJPEGStart | internal/ingest/ffmpeg.go:165-182 | the loop consumes up to and including the start marker, or everything |
| Jpeg.Reader.ReadUntilJPEGEnd | internal/ingest/ffmpeg.go:184-211 | the loop returns the image, early end or size refusal of the specification |
| Jpeg.Reader.ReadJPEGFrames | internal/ingest/ffmpeg.go:119-163 | the frames are always a prefix of the stream's images and all of them unless cancelled, with the exact condition of every way to end |
| Lifecycle.ActKeepsInvariant | internal/ingest/manager.go:57-256 | every step of every actor keeps registry, accounting, gauge and answers |
| Lifecycle.HandlerNeverRuns | internal/api/handlers/streams.go:89-201 | no API handler marks a stream running |
| Lifecycle.RunningIsRegistered | internal/ingest/manager.go:110-127 | in every interleaving a stream marked running is in the map, under a goroutine that has not decided its end |
| Lifecycle.LiveRowIsRunning | internal/ingest/manager.go:110-127 | the row of a live goroutine says running if and only if it existed when the goroutine was marked and no action has written or deleted it since |
| Lifecycle.StopOvertakesStart | internal/api/handlers/streams.go:106-168 | a run with nothing lost or pending that ends with a live goroutine and its row stopped |
| Lifecycle.OneGoroutinePerStream | internal/ingest/manager.go:68-127 | at most one goroutine per stream; the map holds exactly those that have not deleted their entry |
| Lifecycle.SecondInsertBreaksRegistry | internal/ingest/manager.go:69-112 | a second insertion for a stream already in the map leaves two goroutines behind one entry |
| Lifecycle.OverlappingCallbacksRace | internal/ingest/manager.go:69-127 | with a second callback there is a run in which both pass the existence check and two live goroutines of one stream result |
| Lifecycle.FinishedGoroutine | internal/ingest/manager.go:120-206 | 1 to 6 attempts, at most 2^(r+1) - 2 and 62 seconds of back-off, one terminal status, own entry gone |
| Lifecycle.RestingStatus | internal/api/handlers/streams.go:106-168 | with nothing pending no stream is marked running, the gauge is zero, and a stream left starting had its command refused just after its goroutine had ended, or lost |
| Lifecycle.RestingStartWasTooLate | internal/ingest/manager.go:69-127 | a stream rests as starting, no command lost, if and only if its start was refused between its goroutine's terminal status and the deletion of its map entry, its row marked starting by then and neither written nor deleted since |
| Lifecycle.StartCanGoUnanswered | internal/ingest/manager.go:69-73 | a run that rests as starting with no command lost |
| Lifecycle.CancelledEndsStopped | internal/ingest/manager.go:140-195 | a stream other than YouTube cancelled before its last outcome is checked ends stopped |
| Lifecycle.CancelledFailsOnlyInResolution | internal/ingest/manager.go:147-206 | in every run, a goroutine cancelled before giving up ends with error if and only if the resolution before its last attempt fails afterwards, which needs a YouTube stream |
| Lifecycle.StoppedYoutubeCanFail | internal/ingest/manager.go:147-206 | a complete run in which a stopped YouTube stream ends as error |
| Requests.StopPublishes | internal/api/handlers/streams.go:140-171 | a stop request for an existing stream puts its stop command at the end of the queue, if the broker takes it, and then marks the row stopped |
| Requests.DeletePublishes | internal/api/handlers/streams.go:173-201 | a delete request that reads the status running does the same, and then deletes the row |
| Requests.DeleteOfIdle | internal/api/handlers/streams.go:173-201 | any other delete request only deletes the row |
| Requests.StartPublishes | internal/api/handlers/streams.go:89-138 | a start request marks an idle stream starting and publishes its start command; if that fails it marks it failed |
| Requests.StartRejected | internal/api/handlers/streams.go:96-109 | a start request that finds the stream running or missing changes nothing |
| Requests.RequestFails | internal/api/handlers/streams.go:89-201 | a stop of a missing stream, or a failed database access, ends the request and changes nothing |
| Requests.DeliveredInTurn | cmd/ingestor/main.go:111-122 | commands are delivered in the order they were published |
| Requests.StopCancels | internal/ingest/manager.go:211-225 | when the look-up finds the stream, its goroutine is cancelled once the callback is idle again |
| Requests.StopTakesEffect | internal/ingest/manager.go:120-225 | from stop or delete request to terminal status: stopped, unless the goroutine had given up by then or its last URL resolution fails afterwards |
| Requests.ShutdownTakesEffect | internal/ingest/manager.go:102-206 | after a shutdown every goroutine ends as a cancelled one |
| Requests.StartTakesEffect | internal/ingest/manager.go:68-127 | a delivered start launches the stream's goroutine, unless the URL of a YouTube stream cannot be resolved, which marks the row failed, or the stream is in the map, which changes nothing |
| Requests.UncancelledEnds | internal/ingest/manager.go:129-206 | a goroutine nobody cancels ends as stopped if and only if one of its extractions ends without error, and as failed otherwise |
| Requests.CancelledExtractsOnce | internal/ingest/manager.go:129-196 | once cancelled a goroutine begins at most one more extraction |
| Requests.CancelledWaitIsCut | internal/ingest/manager.go:140-145 | a cancelled goroutine can leave its back-off at any moment |
| Requests.CancelledByStop | internal/ingest/manager.go:211-225 | a goroutine is cancelled only after a stop command for its stream has been delivered |
| Requests.ShutdownExactly | internal/ingest/manager.go:102-102 | the context all goroutines share ends exactly with a shutdown |
| Requests.UnknownIsDropped | internal/ingest/manager.go:57-66 | an unknown command is dropped |
| Dispatch.Conservation | internal/queue/consumer.go:141-192 | each fetched message is in exactly one of batch, channel, handler, acked, naked, abandoned |
| Dispatch.ResolvedByHandler | internal/queue/consumer.go:181-189 | a message is acked if and only if its handler has returned without error, naked if and only if it has returned one |
| Dispatch.MessagesMoveOn | internal/queue/consumer.go:141-189 | an unresolved message never blocks everything; handing out waits only for a worker with two messages in its channel |
| Dispatch.CancelIsKept | internal/queue/consumer.go:141-175 | the loop returns only after cancellation |
| Dispatch.RoundRobin | internal/queue/consumer.go:166-192 | worker w is sent exactly the positions congruent to w, in order, one handler at a time; channels are closed once and not sent to after |
| Dispatch.Backlog | internal/queue/consumer.go:134-192 | nothing goes missing from the count and at most 4n messages are unresolved |
| Hub.ClientDelivery | internal/api/ws/hub.go:50-98 | consumed plus buffered is exactly the wanted broadcasts since registration while in the map, and a gap-free prefix after |
| Hub.DepartedDelivery | internal/api/ws/hub.go:50-98 | a client out of the map has departed once and has got exactly what it wants up to its own sign-off, or up to the first wanted message that met 64 buffered ones |
| Hub.FilterHolds | internal/api/ws/hub.go:72-83 | a client with a filter gets every message of its stream and none of another, one without gets every message |
| Hub.FailedWriteIsLast | internal/api/ws/hub.go:132-139 | after a failed write the client gets nothing more |
| Hub.ChannelsAreSafe | internal/api/ws/hub.go:60-94 | no send channel is closed twice or sent to after closing; broadcasts are taken up in order, none lost |
| Hub.GaugeCountsConnections | internal/api/ws/hub.go:53-68 | the gauge is registers minus unregisters, evictions notwithstanding |
| Float16.RoundShiftNearest | onnxruntime-linux-x64-1.17.3/include/onnxruntime_float16.h:278-287 | the add-and-shift trick rounds to nearest, ties to even, for every number and width |
| Float16.NearestIsNearest | onnxruntime-linux-x64-1.17.3/include/onnxruntime_float16.h:278-287 | no integer is nearer than the rounded one |
| Float16.NearestMonotone | onnxruntime-linux-x64-1.17.3/include/onnxruntime_float16.h:278-287 | rounding is monotone in the quotient, across different divisors |
| Float16.ToUint16 | onnxruntime-linux-x64-1.17.3/include/onnxruntime_float16.h:248-293 | the step-by-step conversion, wrapping additions included, is the sign with the half of the magnitude |
| Float16.HalfIsNearest | onnxruntime-linux-x64-1.17.3/include/onnxruntime_float16.h:266-289 | no half is nearer to the float's value than the result, and one as near only if the result is even |
| Float16.MagicSum | onnxruntime-linux-x64-1.17.3/include/onnxruntime_float16.h:269-276 | the bits used for the magic addition are those of the correctly rounded sum: no float is nearer to the exact sum, ties to even |
| Float16.NormalHalfRounds | onnxruntime-linux-x64-1.17.3/include/onnxruntime_float16.h:278-287 | the normal path re-biases the exponent, rounds off 13 bits to the nearest, ties to even, and stays within finite halves and infinity |
| Float16.CarriesIntoInfinity | onnxruntime-linux-x64-1.17.3/include/onnxruntime_float16.h:278-287 | the carry reaches infinity exactly from 0x477ff000, that is 65520, up |
| Float16.SubnormalHalfRounds | onnxruntime-linux-x64-1.17.3/include/onnxruntime_float16.h:269-276 | the magic addition rounds the value to a multiple of 2^-24 |
| Float16.HalfMonotone | onnxruntime-linux-x64-1.17.3/include/onnxruntime_float16.h:266-289 | conversion keeps order over all magnitudes, across its ranges |
| Float16.HalfRoundTrip | onnxruntime-linux-x64-1.17.3/include/onnxruntime_float16.h:296-313 | every half that is a number comes back from float unchanged |
| Float16.HalfExtremes | onnxruntime-linux-x64-1.17.3/include/onnxruntime_float16.h:266-321 | infinity and NaN map to infinity and NaN in both directions, exactly |
| Float16.ToFloat | onnxruntime-linux-x64-1.17.3/include/onnxruntime_float16.h:296-321 | the step-by-step conversion to float, sign included |
| Float16.MinusMagicIsExact | onnxruntime-linux-x64-1.17.3/include/onnxruntime_float16.h:307-310 | the subtraction for subnormal halves yields the one float whose value is the exact difference |
| Float16.ToFloatIsExact | onnxruntime-linux-x64-1.17.3/include/onnxruntime_float16.h:296-321 | every finite half becomes the float of the same value |
| Float16.ToBFloat | onnxruntime-linux-x64-1.17.3/include/onnxruntime_float16.h:487-516 | one addition on the signed bits, which never wraps, rounds the magnitude and keeps the sign |
| Float16.BFloatRoundTrip | onnxruntime-linux-x64-1.17.3/include/onnxruntime_float16.h:487-516 | a float whose low 16 bits are zero, and which is not NaN, loses nothing |
| Float16.BFloatRounds | onnxruntime-linux-x64-1.17.3/include/onnxruntime_float16.h:487-516 | sign kept, magnitude rounded to nearest at 16 bits, ties to even, infinite exactly from 0x7f7f8000 up |
| Float16.BFloatExtremes | onnxruntime-linux-x64-1.17.3/include/onnxruntime_float16.h:487-516 | NaN becomes the one quiet NaN, the infinities the infinities |
| Float16.BFloatMonotone | onnxruntime-linux-x64-1.17.3/include/onnxruntime_float16.h:487-516 | bfloat16 conversion keeps order |
| Vectors.Normalize | internal/vision/embed.go:107-118 | the in-place loops divide every component by the norm, or leave the zero vector |
| Vectors.NormalizeNorm | internal/vision/embed.go:107-118 | a non-zero vector gets squared norm 1, zero stays zero |
| Vectors.NormalizeDirection | internal/vision/embed.go:107-118 | the norm times the result is the vector |
| Vectors.CosineSimilarity | internal/vision/track.go:160-169 | zero for different lengths, else the clamped dot product |
| Vectors.DotOfParts | internal/vision/track.go:160-169 | dot products multiply single components and add up over parts of a vector |
| Vectors.DotWithUnit | internal/vision/track.go:160-169 | a unit vector picks out its component |
| Vectors.CauchySchwarz | internal/vision/track.go:160-169 | the squared dot product is at most the product of squared norms, in every dimension |
| Vectors.ClampIsIdle | internal/vision/track.go:160-169 | for normalised vectors the clamp changes nothing, and 1 is reached by unit vectors only when equal |
| Image.ImageToFloat32CHW | internal/vision/pipeline.go:372-396 | three planes, each cell the normalised sample of its row and column; every source index in bounds |
| Image.SourceIndexIs | internal/vision/pipeline.go:385-387 | the source index is the one whose stretch of the target contains the position |
| Image.ResizeImage | internal/vision/pipeline.go:431-452 | the new image's pixels are the nearest-neighbour samples of the source |
| Image.FusedResize | internal/vision/pipeline.go:369-396 | converting with a resize equals resizing, then converting at the same size |
| Image.TensorBytes | internal/vision/pipeline.go:384-396 | the three planes hold the red, green and blue bytes of the pixel whose stretch contains the target cell, normalised per channel |
| Image.ResizedBytes | internal/vision/pipeline.go:431-452 | the resized image holds the four bytes of that pixel |
| Image.CellsPartition | internal/vision/pipeline.go:391-394 | every tensor cell belongs to exactly one channel, row and column |

## Left out

- ONNX sessions: the model's scores, boxes, landmarks and embeddings are arbitrary inputs.
- Storage, message broker, FFmpeg and yt-dlp: steps that succeed or fail, or arbitrary byte streams; redelivery and similarity ranking are not part of this model.
- Float32 and float64 rounding and NaN in the vision code, and with them `upscaleFace` and the truncations of `cropFace`.
- Attributes, person search and the other fields of an event: they do not influence tracking or pacing.
- The YCbCr and generic paths of `imageToFloat32CHW` and `resizeImage`: the same indices with another colour conversion.
- Handlers other than stream start, stop and delete, and `ConsumeFrames` without worker index.
- Mutexes and shared memory of the manager, the consumer and the hub: they are step systems on values, so aliasing between goroutines is what the steps say.
- Liveness: the step systems say what can happen, not that it will.
- Jpeg.Reader.ReadJPEGFrames: after the first end of file the reader stays at the end, as a pipe does; a reader that yields more bytes later is not modelled, and callback errors, which the code only logs, are not either.
- Float16.HalfRoundTrip: NaN payloads and the sign bit, which is copied, are not part of the statement.
