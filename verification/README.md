# Verified models of the remote desktop client's stateful cores

The client is mostly I/O, but a number of its parts are small stateful algorithms: an audio jitter buffer, the
tables of held keys, a screen differ, a recorder of tool calls, a list of peers, a registry of shared sessions, a
frame mailbox, a byte tunnel, a decoder monitor, a clipboard protocol and two decoders.  This project models them in
Dafny and proves what they are for, over whole runs and for all inputs.

Each file is one module.  Where the code updates fields or loops, the model is a class or a method with the same
fields, branches and loops, proved equal to a function on plain values (`Apply`, `Next`, `Step`, `Expected`, ...); the
properties are lemmas about that function.

| file | what it models |
|---|---|
| `AudioBuffer.dfy` | the bounded sample FIFO and the 30-bin watermark histogram that decides what to drop |
| `AudioDrops.dfy` | how much the audio buffer drops, and when |
| `AudioFrames.dfy` | when its head sample belongs to channel 0 |
| `HeldKeys.dfy` | the tables of pressed keys and modifier flags, and what the peer holds as a result (Map mode) |
| `ScreenDiff.dfy` | changed pixels of a whole screen and of a 3x3 grid |
| `ScreenCapture.dfy` | BGRA with row padding to RGBA, and cropping |
| `Workflow.dfy` | recording and replaying tool calls |
| `LanPeers.dfy` | merging discovery answers into the stored peer list |
| `UiSessions.dfy` | peer sessions shared by UI sessions, and which displays are captured |
| `FrameMailbox.dfy` | the one-slot hand-over of decoded frames to the UI |
| `PortForward.dfy` | the tunnel's login and forwarding loops |
| `VideoThread.dfy` | decoder failure counter, unsupported formats, frame rate |
| `ClipboardSync.dfy` | clipboard conversion, the owner marker, and the protocol of two machines |
| `PercentDecode.dfy` | percent decoding of paths |
| `Attachments.dfy` | encryption of stored attachments |
| `Basics.dfy`, `Bytes.dfy`, `Options.dfy` | shared definitions |

## What turned out not to hold

Each of these is proved with an input or a construction, next to the exact condition under which the property does
hold.

- The drop bound of the audio buffer (at most two thirds of the lowest recorded level, plus one sample) can be lost
  when a resize inside the window raises the rate: `resize` keeps the histogram.  Over runs between two rates it holds
  exactly when 28 inequalities between the rates do, which is so when the rate does not rise, and not when it rises by
  fifteen samples per second (`BoundHoldsIff`).  Measured in time instead of samples it always holds
  (`DropBoundInTime`).
- The comment in `try_shrink` says that nothing is dropped below 600 ms of buffered data; the code drops at 350 ms
  (`DropsBelow600Ms`).  A histogram keeps the promise exactly when nothing is dropped at all, or the most frequent
  level is at least 800 ms and the lowest at least 300 ms, but for rounding (`KeepsPromiseIff`); and in every state of
  every run it can be broken exactly when the window has ended and one more record in one of four bins allows it
  (`KeepsPromiseNextIff`).
- Channel alignment holds in every run exactly when each possible watermark skip is a whole number of frames
  (`StaysAlignedIff`): always up to stereo, at multiples of 80 Hz for any channel count, and never beyond stereo at
  44.1 kHz.
- The peer's held keys agree with the local table in every run exactly when no two keys reach the peer as the same
  code (`AgreementIffInjective`).
- A screen reported as changed need not show a changed region, although the dimensions are compared: a capture can come
  out short, and buffers of different lengths, or empty ones, count as changed whatever they hold.  For buffers of given
  lengths a change always shows exactly when the lengths are equal and not zero (`ChangeAlwaysShownIff`).
- Stored addresses of a LAN peer can survive a discovery round, because repeated answers are recognised by id but
  peers by id and user name; they never do exactly when no id answers under two user names
  (`ThisRoundOnlyIffOneUserPerId`).
- `insert_peer_session_id` does not check that the id is new: the registry stays well formed exactly when it is not
  used by another peer session (`InsertPeerIff`).
- A switch of displays can take a display from another UI session that renders it.  It does not exactly when it is a
  desktop session's switch to a single display, or the new displays include all that others render
  (`OthersStayCapturedIff`, `SwitchTakesDisplay`).
- The frame-rate window does not notice a format change whose first frame fails to decode (`FailedChangeIsMissed`).
- A copy made while change notifications of an earlier update are still outstanding is sent more often than it caused
  notifications (`CopySentOncePerNotificationIff`); incompressible special clipboard data arrives as its own name
  (`TransferIsExactIff`).  The reply at the start of a connection can return what the other side wrote, exactly when
  the cache was last filled by the forced read of a clipboard with the marker, in that connection or in an earlier one
  (`ConnectionReturnsIff`); it then stays so until something else is sent (`CacheStaysUntilSent`).
- `percent_decode_path` also decodes `%+h`; it agrees with section 2.1 of RFC 3986 exactly on strings without it
  (`DecodeIsUnescapeIff`).

## Model

| member | source | states |
|---|---|---|
| AudioBuffer.AudioBuffer.constructor | src/client.rs:1148-1159 | a new buffer is empty, for 48 kHz stereo, with an all-zero histogram |
| AudioBuffer.AudioBuffer.Resize | src/client.rs:1162-1169 | for the rate in force everything is kept; for another the content is discarded and the capacity becomes three times the new rate; the histogram is kept in both cases |
| AudioBuffer.IdleResizesChangeNothing | src/client.rs:1162-1169 | leaving out of a run every resize to the rate then in force changes neither its end, nor what is heard, nor what becomes of any sample |
| AudioBuffer.ResizeDiscardsAll | src/client.rs:1162-1169 | a resize to another rate discards exactly what is buffered |
| AudioBuffer.AudioBuffer.AppendPcm2 | src/client.rs:1237-1254 | the buffer is the last `capacity` samples of old content and new samples |
| AudioBuffer.AudioBuffer.TryShrink | src/client.rs:1172-1234 | counts the level; once per window drops what `ShrinkBy` of the log since the last analysis says, and clears all counters |
| AudioBuffer.AudioBuffer.Shrink | src/client.rs:1192-1233 | the analysis and the drop, with every counter zero afterwards |
| AudioBuffer.Analyse | src/client.rs:1194-1208 | the interleaved argmax-and-clear loop finds the first largest of bins 1..29 and the number of leading empty bins, and leaves all thirty counters zero |
| AudioBuffer.ModeUnique | src/client.rs:1194-1208 | "first most frequent bin" determines a single bin |
| AudioBuffer.AudioBuffer.AppendPcm | src/client.rs:1256-1259 | is one `Append` step of the specification |
| AudioBuffer.AudioBuffer.FillOutput | src/client.rs:1428-1470 | plays the oldest samples in order, then silence |
| AudioBuffer.LowestBinIsLeadingEmpty | src/client.rs:1196-1199 | the number of leading empty bins is the lowest bin any level fell into |
| AudioBuffer.BinMeaning | src/client.rs:1173-1177 | a bin is a tenth of a second wide, the last one is open |
| AudioBuffer.LowestBinBelowLowestHaving | src/client.rs:1173-1177 | that bin is a lower bound for every recorded level |
| AudioDrops.DropBound | src/client.rs:1209-1232 | skip <= 2m/3 + 1 for the smallest recorded level m, skip is even, and three skips are less than what is buffered |
| AudioDrops.DropBoundInTime | src/client.rs:1172-1234 | measured in time the bound holds for every recorded level and any mixture of rates |
| AudioDrops.DropsIff | src/client.rs:1209-1232 | an analysis drops exactly when the most frequent level is at least 600 ms, the lowest at least 200 ms, and more than three skips are buffered; so at least 300 ms are |
| AudioDrops.DropBoundInEveryRun | src/client.rs:1172-1259 | in every run from an empty histogram in which no resize raises the rate, the next drop obeys the bound |
| AudioDrops.RateStaysWithoutResize | src/client.rs:1162-1169 | runs without a resize are such runs |
| AudioDrops.BoundHoldsIff | src/client.rs:1162-1169 | the drop bound in every run between two rates is equivalent to 28 inequalities between them; they hold if the rate does not rise, and not if it rises by fifteen |
| AudioDrops.DropBoundFailsWhenRateRises | src/client.rs:1162-1169 | wherever one of the inequalities fails, three steps break the bound |
| AudioDrops.KeepsPromiseIff | src/client.rs:1187-1191 | analysing a histogram drops nothing below 600 ms if and only if the most frequent level is below 600 ms, or the lowest below 200 ms, or these are at least 800 and 300 ms, with the rounding at level 8 spelled out |
| AudioDrops.KeepsPromiseNextIff | src/client.rs:1172-1234 | in every state of every run, some pops and an append make it drop below 600 ms if and only if the window has ended and the histogram, with one more record in a bin from 2 to 5, allows it |
| AudioDrops.BreaksMeaning | src/client.rs:1209-1232 | which levels drop in which of these bins, at rates that are multiples of ten |
| AudioDrops.DropsBelow600Ms | src/client.rs:1187-1191 | a run that drops samples with 350 ms buffered |
| AudioBuffer.StepIsFifo | src/client.rs:1237-1259 | every step takes samples off the front only; the heard ones are those whose fate is Played, in order |
| AudioBuffer.Conservation | src/client.rs:1237-1259 | in every run appended = heard + dropped + buffered, in order, and the buffer is a suffix of what was appended |
| AudioFrames.StepKeepsFrames | src/client.rs:1227-1229 | one step of whole frames leaves and drops whole frames |
| AudioFrames.HeadIsChannelZero | src/client.rs:1227-1229 | if watermark skips are whole frames, the head sample belongs to channel 0 in every reachable state |
| AudioFrames.WholeSkipsToStereo | src/client.rs:1227-1229 | which is so for mono and stereo at every sample rate |
| AudioFrames.WholeSkipsAtEightyHertz | src/client.rs:1227-1229 | and for any channel count at sample rates that are multiples of 80 |
| AudioFrames.StaysAlignedIff | src/client.rs:1172-1259 | alignment in every run of whole frames is equivalent to whole skips at the levels 4 and 6..29 |
| AudioFrames.DriftsBeyondStereo | src/client.rs:1227-1229 | at 44.1 kHz no larger channel count stays aligned |
| HeldKeys.Keyboard.IsLongPress | src/keyboard.rs:369-382 | a press is a long press exactly when its modifier's flag is set |
| HeldKeys.Keyboard.UpdateModifiersState | src/keyboard.rs:551-567 | sets or clears the flag of that modifier and no other |
| HeldKeys.Keyboard.EventToKeyEvents | src/keyboard.rs:569-600 | updates both tables and returns the mapped key event, if the table has one |
| HeldKeys.Keyboard.ProcessEvent | src/keyboard.rs:109-118 | nothing is sent for a mapped key event exactly if it is a press whose modifier flag was set; otherwise the mapped code, pressed or released, and both tables are updated |
| HeldKeys.Keyboard.ReleaseKey | src/keyboard.rs:388-399 | the release of one stored key, with the extra tap for Alt and AltGr |
| HeldKeys.Keyboard.ReleaseRemoteKeys | src/keyboard.rs:384-400 | in whatever order the map is walked, both tables end as the drain says and exactly the strokes of the stored keys are sent |
| HeldKeys.StepAgrees | src/keyboard.rs:551-592 | one event keeps the two tables in agreement, and the peer's held codes equal to the mapped codes of TO_RELEASE |
| HeldKeys.PeerAgrees | src/keyboard.rs:551-592 | so does every run |
| HeldKeys.AgreementIffInjective | src/keyboard.rs:889-954 | agreement in every run is equivalent to an injective code map |
| HeldKeys.SharedCode | src/keyboard.rs:889-954 | two keys on one code break it in three events |
| HeldKeys.ModifierSentOnlyWhenUp | src/keyboard.rs:369-382 | a modifier's press is sent exactly when the peer does not hold it |
| HeldKeys.OrdinaryPressAlwaysSent | src/keyboard.rs:369-382 | after every run, every press of a mapped key that is not a modifier is sent, auto-repeat included |
| HeldKeys.ReleaseAlwaysSent | src/keyboard.rs:369-382 | and the release of any mapped key |
| HeldKeys.SwallowedIff | src/keyboard.rs:369-382 | a modifier's press is swallowed exactly if it was pressed and not released since |
| HeldKeys.ModifiersAre | src/keyboard.rs:44-56 | the eight modifiers have a flag, and no other key |
| HeldKeys.ReleaseOne | src/keyboard.rs:388-399 | the extra tap is not swallowed as a long press and leaves the flag cleared |
| HeldKeys.DrainRun | src/keyboard.rs:384-400 | a drain in any order clears the flags of the listed keys and sends their strokes |
| HeldKeys.DrainDelivers | src/keyboard.rs:384-400 | those strokes release exactly the listed keys' codes at the peer |
| HeldKeys.ReleaseLeavesNothingHeld | src/keyboard.rs:384-400 | after any run, releasing leaves TO_RELEASE, all flags and the peer's held set empty |
| ScreenDiff.PixelDiffPercentage | src/mcp_server.rs:1594-1609 | the share of pixels in which a colour went up or down by more than the threshold; 100 for empty or unequal buffers |
| ScreenDiff.DiffersIff | src/mcp_server.rs:1602-1605 | a pixel differs exactly if red, green or blue went up or down by more than the threshold, as integers |
| ScreenDiff.ChangedPixelsCount | src/mcp_server.rs:1600-1608 | the global loop counts the set of these pixels |
| ScreenDiff.AlphaDoesNotCount | src/mcp_server.rs:1602-1605 | transparency alone never counts |
| ScreenDiff.HitsIff | src/mcp_server.rs:1632-1640 | which pixels the grid counts, and which of them as changed |
| ScreenDiff.CountRectIsCount | src/mcp_server.rs:1629-1643 | a cell's count is the number of its pixels of that kind |
| ScreenDiff.ComparisonSymmetric | src/mcp_server.rs:1594-1658 | percentage and regions do not depend on which screenshot is the earlier one |
| ScreenDiff.CountCell | src/mcp_server.rs:1629-1643 | counts the pixels of the cell that lie inside both buffers, and those in which a colour went up or down by more than ten |
| ScreenDiff.CellsMeet | src/mcp_server.rs:1613-1628 | the cells of a side start at 0, meet without gap or overlap and end at its length; the last takes the remainder |
| ScreenDiff.RegionMeaning | src/mcp_server.rs:1644-1654 | a cell is reported exactly if more than one pixel in two hundred changed; low up to one in twenty, high above three in ten; never an empty cell |
| ScreenDiff.CellReport | src/mcp_server.rs:1622-1655 | one turn of the loop reports the pixels of that cell |
| ScreenDiff.GridDiff | src/mcp_server.rs:1611-1658 | the regions of the nine cells in reading order |
| ScreenDiff.ScreenDiffSummary | src/mcp_server.rs:3183-3209 | fails exactly on changed dimensions; buffers of different lengths are changed, others if more than one pixel in two hundred is; a change in buffers of one size lists a region unless they are empty |
| ScreenDiff.AboveTenths | src/mcp_server.rs:3203-3203 | comparing a percentage with a number of tenths is comparing counts |
| ScreenDiff.CellsPartition | src/mcp_server.rs:1620-1628 | every pixel lies in exactly one cell, also for sides below three |
| ScreenDiff.CellsSumToScreen | src/mcp_server.rs:1620-1643 | the nine counts add up to the count of the whole screen |
| ScreenDiff.GridRefinesGlobal | src/mcp_server.rs:1594-1658 | cell totals sum to the number of pixels in the buffers, full or short, and cell changed counts to the global changed count |
| ScreenDiff.NoRegionMeansFewChanges | src/mcp_server.rs:1644-1647 | if no cell is reported, at most one pixel in two hundred changed |
| ScreenDiff.ChangedShowsRegion | src/mcp_server.rs:3194-3205 | buffers of one size that are reported as changed list a region if and only if they are not empty |
| ScreenDiff.ChangeAlwaysShownIff | src/mcp_server.rs:3190-3205 | for buffers of any two lengths, whatever they contain: a change always lists a region if and only if the lengths are equal and not zero |
| ScreenDiff.RegionsExact | src/mcp_server.rs:1644-1654 | exactly the cells with more than half a percent of changed pixels are listed |
| ScreenDiff.RegionsOrdered | src/mcp_server.rs:1622-1656 | in reading order, each once |
| ScreenCapture.ConvertFrame | src/mcp_server.rs:1546-1559 | the conversion loops produce the swapped pixels of all rows that lie inside the source |
| ScreenCapture.CropFrame | src/mcp_server.rs:1579-1586 | the crop loop produces the requested part of each row |
| ScreenCapture.CaptureRgba | src/mcp_server.rs:1546-1591 | conversion, clamping and crop together |
| ScreenCapture.RowsLength | src/mcp_server.rs:1549-1559 | the converted image has its full size exactly when the source covers every pixel |
| ScreenCapture.CoversByLastPixel | src/mcp_server.rs:1551-1552 | which can be read off the last pixel |
| ScreenCapture.FullSizeIffCovered | src/mcp_server.rs:1546-1559 | the same, in bytes |
| ScreenCapture.FramePixel | src/mcp_server.rs:1549-1559 | every pixel of the converted image is the channel-swapped source pixel, without the row padding |
| ScreenCapture.CropPixel | src/mcp_server.rs:1580-1586 | pixel (r, c) of a crop is pixel (y + r, x + c) of the image |
| ScreenCapture.CaptureVisible | src/mcp_server.rs:1572-1578 | the casts and clamps compute the visible part; a negative extent means everything to the edge |
| ScreenCapture.CropSize | src/mcp_server.rs:1571-1588 | for every requested area: an error exactly when nothing is visible, otherwise 4 * width * height bytes of the visible part |
| ScreenCapture.CropCorrect | src/mcp_server.rs:1546-1588 | whose pixel (r, c) is the channel-swapped source pixel (y + r, x + c), in bounds |
| ScreenCapture.CapturedPixel | src/mcp_server.rs:1546-1588 | byte by byte: the result has four bytes for each pixel of the visible part, those of the source pixel at the area's origin plus (row, column), with red and blue changed places |
| ScreenCapture.OutOfBoundsIff | src/mcp_server.rs:1574-1578 | an area is refused exactly if nothing of it is on the screen |
| ScreenCapture.WholePixel | src/mcp_server.rs:1546-1559 | the same for the whole screen |
| Workflow.Server.DoStartRecording | src/mcp_server.rs:3242-3248 | recording, with no steps |
| Workflow.Server.DoStopRecording | src/mcp_server.rs:3250-3270 | returns the recorded calls with the gaps between their timestamps, and forgets them |
| Workflow.Server.HandleToolsCall | src/mcp_server.rs:1164-1226 | executes what the call stands for and, unless it is a control tool, records it with the time since the start if a recording is on |
| Workflow.Server.Sleep | src/mcp_server.rs:3280-3283 | pauses for the delay times the multiplier, rounded down; not before the first step or with a multiplier that is not positive |
| Workflow.Server.ReplayStep | src/mcp_server.rs:3274-3294 | a control tool is skipped, any other is dispatched and reported with its index, tool and success |
| Workflow.Server.DoReplayWorkflow | src/mcp_server.rs:3272-3300 | executes the non-control steps in order and reports how each went; terminates although dispatch and replay call each other |
| Workflow.ReportMeaning | src/mcp_server.rs:3288-3293 | the report has one entry for each executed step, in order, with its index, its tool and whether it succeeded |
| Workflow.IndicesMeaning | src/mcp_server.rs:3277-3279 | exactly the steps of ordinary tools are executed, in order, each once |
| Workflow.ReplayableMeaning | src/mcp_server.rs:3284-3287 | with their names and arguments as they stand |
| Workflow.RecordingIsExecution | src/mcp_server.rs:1211-1224 | in every run the recording in progress is exactly what was executed since it was started |
| Workflow.ExecutedAreNotControl | src/mcp_server.rs:3277-3279 | no control tool is ever executed by dispatch or replay as a tool |
| Workflow.ReplayExecutesRecording | src/mcp_server.rs:3250-3300 | replaying a stopped recording executes what it recorded |
| Workflow.RecordReplayFixpoint | src/mcp_server.rs:3242-3305 | recording that replay gives the same calls back, whatever happened before |
| Workflow.DelaysTelescope | src/mcp_server.rs:3252-3263 | the delays up to a step add up to its timestamp |
| LanPeers.TakeSame | src/lan.rs:320-321 | finds and removes the first entry of the same peer |
| LanPeers.MergeAnswer | src/lan.rs:319-327 | one answer moves its peer to the front and merges addresses if the id was seen |
| LanPeers.HandleReceivedPeers | src/lan.rs:309-347 | the loop computes the expected list, and writes exactly the lists that are due, and the last one |
| LanPeers.WritesMeaning | src/lan.rs:328-333 | a write is due after the first answer, and after a later one exactly if it comes more than 300 ms after that of the last write |
| LanPeers.StoredMeaning | src/lan.rs:328-333 | each write adds the list expected of the answers up to then |
| LanPeers.AnswerStep | src/lan.rs:319-327 | one answer turns the expected list into the next one |
| LanPeers.MostRecentFirst | src/lan.rs:327-327 | responders are ordered by their latest answers |
| LanPeers.OrderHas | src/lan.rs:318-328 | they are exactly the peers that answered |
| LanPeers.OrderDistinct | src/lan.rs:320-327 | each once |
| LanPeers.SilentAreOthers | src/lan.rs:320-321 | they are followed by the silent peers in their stored order |
| LanPeers.SilentUnchanged | src/lan.rs:310-313 | each of them as it was stored, but offline |
| LanPeers.LatestAnswerShown | src/lan.rs:318-327 | each responder is shown with the names of its latest answer |
| LanPeers.DiscoveryResult | src/lan.rs:309-347 | no duplicates, and exactly the responders are online |
| LanPeers.RoundsNeverDuplicate | src/lan.rs:309-347 | nor after any number of rounds |
| LanPeers.EarliestWins | src/lan.rs:322-325 | a responder's merged addresses of the round: each address with the value of the first answer that named it |
| LanPeers.ThisRoundOnlyIff | src/lan.rs:319-326 | its final addresses are those of this round exactly when no stored one survives or all agree |
| LanPeers.OneUserPerIdMergesThisRound | src/lan.rs:319-326 | if no id answers under two user names nothing stored survives |
| LanPeers.ConflictKeepsStored | libs/hbb_common/src/config.rs:1801-1803 | if one does, whatever was stored for one of the two peers survives |
| LanPeers.ThisRoundOnlyIffOneUserPerId | src/lan.rs:319-326 | so the merge is of this round alone, whatever was stored, if and only if no id answers under two user names |
| LanPeers.StaleAddressSurvives | src/lan.rs:319-326 | a concrete round in which an old address survives |
| UiSessions.UnregisterInAnyOrder | src/flutter.rs:331-410 | a display entry goes away exactly with its second output, in either order |
| UiSessions.RendererUpdates | src/flutter.rs:312-410 | setting a size or registering an output changes just that of just that display |
| UiSessions.Sessions.GetSessionBySessionId | src/flutter.rs:1974-1987 | the peer session the id belongs to |
| UiSessions.Sessions.GetPeerIdBySessionId | src/flutter.rs:1953-1971 | agrees with it |
| UiSessions.Sessions.SessionAdd | src/flutter.rs:1180-1219 | refuses exactly the ids in use |
| UiSessions.Sessions.InsertSession | src/flutter.rs:2097-2108 | the id now belongs to the peer session, which is created if missing; nothing else changes |
| UiSessions.Sessions.InsertPeerSessionId | src/flutter.rs:2111-2142 | joins an existing peer session, or fails |
| UiSessions.Sessions.RemoveSessionBySessionId | src/flutter.rs:1995-2013 | returns the peer session exactly when its last UI session left; otherwise it asks for the displays the others need |
| UiSessions.Sessions.SessionClose | src/flutter_ffi.rs:245-252 | closes the connection exactly then |
| UiSessions.Sessions.SessionSwitchDisplay | src/flutter.rs:2048-2094 | the messages a switch causes, and the new displays |
| UiSessions.Sessions.SessionSetSize | src/flutter.rs:1629-1650 | sizes the display for that UI session only, adding it to those shown |
| UiSessions.CheckRemoveUnusedDisplays | src/flutter.rs:2015-2046 | the loop captures the union, or nothing if it is empty |
| UiSessions.StepBalance | src/flutter.rs:1995-2013 | each step keeps opened - closed = registered for every peer connection |
| UiSessions.OpensAndClosesMeaning | src/flutter.rs:1995-2013 | a connection is opened with the first UI session of its peer and closed with the last |
| UiSessions.OpensBalanceCloses | src/flutter_ffi.rs:245-252 | over every run with fresh ids each connection is closed as often as opened, except while registered |
| UiSessions.RefinesWellFormed | src/flutter.rs:1953-2013 | in every reachable state each peer session has a UI session and each id belongs to one peer session |
| UiSessions.InsertPeerIff | src/flutter.rs:2111-2142 | joining keeps that exactly when the id is not in use by another peer session |
| UiSessions.CaptureIsUnion | src/flutter.rs:2015-2046 | a display is captured exactly if another UI session renders it or it was just selected |
| UiSessions.CapturedBySwitch | src/flutter.rs:2048-2094 | what is captured after a switch, in every branch |
| UiSessions.SwitchMessages | src/flutter.rs:2053-2090 | every message a switch causes, in order, in every branch |
| UiSessions.OthersStayCapturedIff | src/flutter.rs:2048-2094 | a switch leaves all that others render captured if and only if it is a desktop session's switch to one display or the new displays include it; the new displays are always captured |
| UiSessions.SwitchTakesDisplay | src/flutter.rs:2076-2079 | a switch to two displays that takes a third from another UI session |
| FrameMailbox.FlutterHandler.ReadRgba | src/flutter.rs:1042-1049 | the frame, if valid |
| FrameMailbox.FlutterHandler.FreeRgba | src/flutter.rs:1052-1056 | frees the slot of that display only |
| FrameMailbox.FlutterHandler.NotifySessions | src/flutter.rs:1104-1121 | exactly the eligible UI sessions are told |
| FrameMailbox.FlutterHandler.OnRgbaSoftRender | src/flutter.rs:1075-1134 | is fill, notify and retract in turn, on that display only |
| FrameMailbox.StepKeepsInv | src/flutter.rs:1075-1134 | one step of any thread keeps the invariant |
| FrameMailbox.ReadableMeansNotified | src/flutter.rs:1075-1134 | in every interleaving a frame that stays readable was announced, and thread and slot hold different buffers |
| FrameMailbox.FrameStaysUntilFreed | src/flutter.rs:1087-1095 | an announced frame stays readable and unchanged until somebody frees the slot |
| FrameMailbox.BuffersConserved | src/flutter.rs:1094-1098 | swapping neither loses nor duplicates a buffer |
| FrameMailbox.FreeSlotAcceptsFrame | src/flutter.rs:1087-1133 | a free slot takes the next frame exactly if somebody can be told; a taken one keeps its frame |
| PortForward.Tunnel.ConnectAndLogin | src/port_forward.rs:107-185 | forwarding exactly if the first event that decides the login is PeerInfo, failure after any other, otherwise still buffering; the framed packets are the replies and requests before it whose send succeeded, in order |
| PortForward.Undecided | src/port_forward.rs:122-179 | until PeerInfo, a final login error, a malformed message, a timeout or the end of either side, the login goes on; an error that may be retried does not end it |
| PortForward.Decided | src/port_forward.rs:124-185 | the first of these settles it, and what is then on the wire |
| PortForward.Tunnel.RunForward | src/port_forward.rs:187-210 | ends exactly if one of the sides does; until then each chunk that is sent goes through as it is |
| PortForward.Forwards | src/port_forward.rs:191-208 | the same for runs of the step function |
| PortForward.StepStreams | src/port_forward.rs:171-183 | one step conserves local bytes: accepted, buffered or lost by a failed send |
| PortForward.LostBound | src/port_forward.rs:122-210 | so does every run |
| PortForward.LocalStreamIntegrity | src/port_forward.rs:122-210 | nothing raw before the login; afterwards the wire carries the local bytes, in order, if and only if no send of a non-empty chunk failed |
| PortForward.PeerStreamIntegrity | src/port_forward.rs:200-206 | the local client gets the peer's bytes after the login, in order, if and only if no send of a non-empty chunk failed; what is missing is what was lost |
| PortForward.WireSwitchesOnce | src/port_forward.rs:180-183 | the wire switches from messages to raw bytes once |
| VideoThread.VideoHandler.HandleFrame | src/client.rs:1528-1578 | the counters follow the outcomes since the decoder was reset |
| VideoThread.VideoHandler.ResetTo | src/client.rs:1581-1593 | a reset forgets them |
| VideoThread.FpsMeter.FpsCalculate | src/client.rs:2922-2951 | is one `Tick` |
| VideoThread.FpsMeter.OnDecoded | src/client.rs:2922-2951 | the variables keep the values that the calls so far determine |
| VideoThread.VideoThread.Decode | src/client.rs:2805-2808 | a handler is created with the first frame; `format_changed` means what it says |
| VideoThread.VideoThread.OnFrame | src/client.rs:2790-2870 | one turn of the loop keeps handler, meter and marks in agreement with the history |
| VideoThread.VideoThread.CheckDecoder | src/client.rs:2852-2866 | each unusable format is marked once |
| VideoThread.VideoThread.OnReset | src/client.rs:2871-2875 | MediaData::Reset |
| VideoThread.FailCountSnoc | src/client.rs:1547-1563 | the closed form of the failure counter: n + 2 if all n frames failed, otherwise the failures since the last success |
| VideoThread.GivesUpIff | src/client.rs:1547-1563 | it reaches the maximum exactly when the first frame failed with no success since, or the last three failed |
| VideoThread.FlaggedIff | src/client.rs:2852-2866 | a format is marked exactly if some frame of it left the decoder invalid, or all frames since the decoder was created failed, or the last three did |
| VideoThread.TickMeasures | src/client.rs:2922-2951 | in every run count stays below 30, duration is the time of the counted frames, and the three frames from a format change on are not counted |
| VideoThread.PublishedIsRate | src/client.rs:2944-2946 | a published value is the rounded rate of exactly the last 10, 20 or 30 frames, at least three after the format change |
| VideoThread.PublishedIff | src/client.rs:2938-2951 | a value is published exactly after every tenth counted frame whose window spans a millisecond |
| VideoThread.RateMeaning | src/client.rs:2946-2946 | the rate is rounded down |
| VideoThread.MillisMeaning | src/client.rs:2944-2944 | milliseconds are rounded down |
| VideoThread.FpsMeaning | src/client.rs:2944-2946 | whatever value is on display was computed that way |
| VideoThread.WindowIsRest | src/client.rs:2948-2951 | the window in progress is what follows the complete windows of thirty frames |
| VideoThread.WindowFollowsFormat | src/client.rs:2807-2830 | the window restarts at every format change, if its first frame decodes |
| VideoThread.FailedChangeIsMissed | src/client.rs:2807-2830 | if it does not, the change is missed unless there was nothing to forget |
| ClipboardSync.Clipboard.CheckClipboard | src/clipboard.rs:52-76 | the message about the current content, remembered; nothing if it is owned, empty or unreadable |
| ClipboardSync.Clipboard.UpdateClipboard | src/clipboard.rs:199-232 | writes the items and the owner marker, or changes nothing |
| ClipboardSync.Clipboard.CurrentClipboardMsg | src/clipboard.rs:470-502 | the first message of a connection, from the last one or a forced read |
| ClipboardSync.MarkedIsOwned | src/clipboard.rs:508-524 | what either side writes both sides recognise as owned |
| ClipboardSync.Message | src/clipboard.rs:319-348 | one entry for each item read, and none for owned content |
| ClipboardSync.EverythingIsSent | src/clipboard.rs:319-348 | if no item is a file, an empty text or special data under the owner's name, all are sent, in order, whatever their kind; by force or not |
| ClipboardSync.WithheldChangesNothing | src/clipboard.rs:330-347 | an empty text or such special data, wherever it is, changes nothing about the rest; only a marker stops everything, unless forced |
| ClipboardSync.FilesStopEverything | src/clipboard.rs:307-317 | with a file nothing is sent |
| ClipboardSync.MarkerMeaning | src/clipboard.rs:518-523 | the marker is special data under the owner's name with one of the two low bits of its first byte set |
| ClipboardSync.WireForm | src/clipboard.rs:545-634 | format, compression, dimensions, name and content of every kind of item on the wire |
| ClipboardSync.CopyMeaning | src/clipboard.rs:771-777 | a copy replaces what the clipboard holds and notifies |
| ClipboardSync.CheckMeaning | src/clipboard.rs:52-76 | a check uses up a notification, and sends and caches the message if there is one |
| ClipboardSync.DeliveryMeaning | src/clipboard.rs:199-232 | a delivery replaces what the clipboard holds, with the marker, if it gets through and holds anything |
| ClipboardSync.ConnectMeaning | src/clipboard.rs:470-500 | a connection changes only an empty cache, and replies from it |
| ClipboardSync.CopyArrives | src/clipboard.rs:52-76 | after a copy, a check and a delivery the other clipboard holds every item, in order, and the marker |
| ClipboardSync.TransferKeepsPlaces | src/clipboard.rs:545-677 | every item arrives in its place |
| ClipboardSync.TransferIsExactIff | src/clipboard.rs:605-621 | unchanged, exactly when special data compresses or equals its name |
| ClipboardSync.StepExplained | src/clipboard.rs:52-76 | the log of copies, writes, messages and connections goes on explaining both clipboards and both caches |
| ClipboardSync.OnlyCopiesAreSent | src/clipboard.rs:319-348 | no echo: in every run, whatever a side sends is what was last copied there, never what a message had put there |
| ClipboardSync.StepBudget | src/clipboard.rs:52-76 | one step raises sent plus still to be sent only by a copy, by its allowance |
| ClipboardSync.SentWithinAllowance | src/clipboard.rs:52-76 | in every run a side sends at most what was outstanding and what its copies allow |
| ClipboardSync.SentWithinCopyNotifications | src/clipboard.rs:52-76 | no more messages than notifications caused by copies, if no copy finds outstanding notifications about content that is not to be sent |
| ClipboardSync.BudgetIsExact | src/clipboard.rs:52-76 | the outstanding notifications bound what is sent without another copy, and the bound is reached |
| ClipboardSync.CopySentOncePerNotificationIff | src/clipboard.rs:52-76 | a copy is sent at most once per notification it causes if and only if none was outstanding when it was made |
| ClipboardSync.CopySentTwice | src/clipboard.rs:52-76 | a copy with one notification, made just after a delivery, can be sent twice |
| ClipboardSync.ForcedReadFillsIff | src/clipboard.rs:475-479 | when exactly the forced read fills the cache with what the other side wrote |
| ClipboardSync.FirstText | src/clipboard.rs:489-499 | a peer that takes one format at a time gets the first text of the cache, or nothing if there is none |
| ClipboardSync.ConnectionReturnsIff | src/clipboard.rs:470-502 | in every run, the reply at the start of a connection is all, or the first text, of what is cached; it is what the other side wrote if and only if the cache was last filled by the forced read of a marked clipboard, in this connection or an earlier one |
| ClipboardSync.CacheStaysUntilSent | src/clipboard.rs:475-482 | until the side sends something else, every connection is answered from the same cache |
| ClipboardSync.SentIsFromUser | src/clipboard.rs:319-348 | one unforced check sends only what was copied |
| PercentDecode.PercentDecodePath | src/dashboard.rs:285-303 | the loop computes `Decode` |
| PercentDecode.EncodesIff | src/dashboard.rs:285-303 | decoding inverts every encoder that escapes at least '%', and those encoders' outputs are the strings in which every '%' starts an escape |
| PercentDecode.DecodeInvertsEncode | src/dashboard.rs:285-303 | decoding undoes an encoder that writes any byte but those it keeps as an escape, with digits of either case |
| PercentDecode.DigitsMeaning | src/dashboard.rs:290-293 | exactly the 22 hexadecimal digits have a value, and which |
| PercentDecode.PlusIsDecoded | src/dashboard.rs:290-293 | what becomes of `%+h` |
| PercentDecode.DecodeLength | src/dashboard.rs:288-293 | each `%+h` shortens the result by two |
| PercentDecode.DecodeIsUnescapeIff | src/dashboard.rs:288-293 | the decoder follows section 2.1 of RFC 3986 if and only if there is no `%+h` |
| Attachments.EncryptAttachment | src/dashboard.rs:307-315 | the magic number, then each byte combined with the repeating key |
| Attachments.XorMeaning | src/dashboard.rs:312-313 | a bit of the result is set exactly if the two bytes differ in it |
| Attachments.DecryptInvertsEncryptIff | src/dashboard.rs:307-325 | decrypting with any id restores the data exactly when the two keys agree on its length |
| Attachments.DecryptInvertsEncrypt | src/dashboard.rs:307-325 | so with the user's own id it always does |
| Attachments.PlainIsKeptIff | src/dashboard.rs:317-320 | stored data comes back unchanged exactly when it lacks the magic number |
| Attachments.EncryptInvertsDecryptIff | src/dashboard.rs:307-325 | encrypting what was decrypted restores the stored data exactly when it has the magic number |

## Left out

- HeldKeys.Keyboard.EventToKeyEvents: Map mode only; Legacy and Translate modes, lock-key states and the rdev code
  tables are not modelled (the table is any partial map), nor is the race between the clone and the clear of
  TO_RELEASE in `release_remote_keys`.
- AudioBuffer.AudioBuffer.AppendPcm: the ring buffer of the `ringbuf` crate is its content and capacity; the buffer
  counts samples in unbounded integers; the sleep of the output callback before it reads is not modelled.
- AudioFrames.StaysAlignedIff: stated for sample rates of at least 20 Hz, below which a fill level can skip bins.
- AudioDrops.BoundHoldsIff: stated for low rates of at least 10 and high rates of at least 60 samples per second, below
  which a level can skip bins or a skip can be rounded away; AudioDrops.KeepsPromiseIff likewise for at least 100.
- ScreenDiff.PixelDiffPercentage: for buffers of whole pixels, which is what the capture produces; a trailing partial
  pixel makes the source index out of bounds or divide unevenly.  Percentages are exact rationals, not f64, and the
  rounding of the reported numbers to one decimal is not modelled.
- ScreenDiff.GridRefinesGlobal: needs dimensions of at most 2^32 bytes, since offsets in the grid are u32.  The
  counters and cell bounds themselves are unbounded integers.
- ScreenCapture.CropSize: for screens below 2^63 pixels a side, where the wrap-around of the `usize` casts and the
  clamps agree with the visible part.  The retry loop around the capture, and the Windows GDI path, are not modelled.
- Workflow.Server.RunTool: a tool is a recorded call with an arbitrary success and duration; unknown names fail.  JSON
  is reduced to calls with or without a step array.
- LanPeers.HandleReceivedPeers: the waiting for answers and the filter on the own MAC address are not modelled.
- UiSessions.Sessions.RemoveSessionBySessionId: the two write locks are one atomic step, and peer sessions are values
  in the table rather than shared references, so clones held elsewhere are not captured.
- FrameMailbox.FlutterHandler.OnRgbaSoftRender: the method is one undisturbed call; interleavings with the UI are in the step
  lemmas.  Plugin hooks are not modelled.
- VideoThread.VideoThread.OnFrame: creation of a decoder always succeeds and the decoder's work is an input; sending the new list of
  supported formats is not modelled.
- ClipboardSync.Clipboard.CheckClipboard: reading may fail as a whole but not in part; the retries are not modelled.
  Unsupported formats never appear in what is read.  Image sizes are not narrowed to 32 bits.
- ClipboardSync.OnlyCopiesAreSent: is about unforced checks; the forced read at the start of a connection is
  `ConnectionReturnsIff`, which assumes that no other program copies content with the marker.  Only the client starts
  a connection that way; the model lets either side do it.  File copies and the Windows connection manager's
  clipboard have their own channels, which are left out.
- PercentDecode.PercentDecodePath: bytes; the final lossy conversion to a string is left out.
- Attachments.EncryptAttachment: SHA-256 is any function with 32-byte results.
- Expiry of stored screenshots, `wait_for_screen_change`, and the other tools of the tool server: mostly calls into the
  system.
- Networking, configuration files, secure handshakes, printing, installers and user interface: effects and foreign
  libraries.
