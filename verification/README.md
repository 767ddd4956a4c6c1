# sRemFB: verified models of the streaming core

sRemFB streams a framebuffer to remote panels. This project models the state
machines behind the I/O in Dafny and proves what they keep over every run:
the transmit engine and its receiver, the plug gate in front of hotplugs, the
cursor overlay, the incremental HDMI capture, the decoder buffers of the board
client, the viewer's wake-up protocol, the upstream parser, the input replay
and the pressure controller.

`dafny verify dfyconfig.toml` verifies the whole project.

## How the parts fit together

| module | what it holds |
|---|---|
| `Common`, `Wire`, `Pixels`, `Geometry` | options and clamps, the 20-byte message header and little-endian fields, pixel formats with the ordered dither, damage rects |
| `Stream` | the meaning of a server stream: which messages the receive loop takes out of any bytes, which pixel values they bind it to show, the grammar of H.264 episodes |
| `Framing`, `TxState`, `Xmit` | the transmit engine: byte framing under partial sends, the abstract engine state with its invariant, and the class that does the work |
| `ViewNet`, `EndToEnd` | the viewer's receive loop, shared framebuffer and texture, and the engine and viewer put together |
| `PlugHistory`, `PlugCaps`, `PlugGate` | the meaning of the full plug history, the hourly caps, the pruned event list that is really kept |
| `Cursor`, `Evdi` | the cursor overlay, and the EVDI source as overlay plus engine |
| `Tiles`, `TileRects`, `Convert`, `Capture`, `Kvm` | tile diff, rect extraction, conversion, rotating buffers, and the KVM source as capture plus engine |
| `Blit`, `BlitOrder` | the two threads of the board client around the decoder's capture buffers |
| `Wake` | the two threads of the viewer around the shared framebuffer |
| `Upstream` | the server's parser of client messages |
| `HidMap`, `HidKeyboard`, `HidMouse`, `Uinput` | input replay as HID reports and as uinput events |
| `Control`, `Session` | the pressure controller, and one connection as controller plus engine |

Objects that the program updates in place are classes over fields and arrays.
Each method is proved against a specification on values (`Take`, `Shown`,
`Reopen`, `Scan`, `GridBlocks`, `Judged`, ...), and the results are lemmas about that
specification or invariants that every method keeps. Threads are modelled as
interleaved atomic steps. Sockets, clocks, the encoder, the decoder, the
kernel and the controller's advice are parameters, so a contract holds for
every schedule of partial sends, errors and switches.

What a pixel looks like is said by its bytes alone: `Pixels.Looks` for the wire,
`Cursor.OnTop` for the blended cursor, `Convert.Coloured` for the captured
formats. The picture results are stated in these terms.

`Xmit.Client.unreported` is ghost: the pixels the source changed and has not
yet reported as damage. `Evdi.Screen.Update` and `Kvm.Feed.OnFrame` prove that
the two sources never add to it, which is exactly what the convergence result
asks of a source. `Xmit.Client.swallowed` and `Xmit.Client.cut` are ghost too:
an encoder that answered a forced IDR with nothing, and H.264 left in an open
episode after a teardown was scheduled.

Four properties one would expect do not hold of the code as it is; each has an
exact account here.

- Scheduling a teardown (`server/core/session.c:140-144`) does not stop the
  write watch, but control messages are dropped from then on. If H.264 is left
  in that state with an episode open, its end is never announced and the next
  frame is a rect inside it. The episode grammar holds exactly until then
  (`Xmit.Client.GrammarHolds` with `Xmit.Client.OnOutReady`, witness
  `Xmit.TeardownBreaksGrammar`).
- The plug gate announces at most 16 mode timeouts an hour
  (`server/evdi/evdi.c:766-767`). The bound over all runs is 15 plus the number
  of clients that may wait at the same time, and `PlugGate.TimeoutsAttained`
  attains it for every such number, so 16 holds for one client only.
- Work is left behind with nothing armed to wake it up after a pass in which
  the encoder reported an error and no pacing timer was running, and only
  then (`Xmit.Client.OnOutReady`, witness `Xmit.EncoderErrorSticks`).
- A tap within one frame is lost on the target if and only if the last report
  still showed the key when it was pressed (`HidKeyboard.Replay.OnKey`, with
  `HidKeyboard.Replay.Tap` and `HidKeyboard.Replay.DoubleTap`).

## Model

| member | source | states |
|---|---|---|
| `Wire.HeaderRoundTrip` | server/core/xmit.c:284-309 | a header that fits its fields is read back unchanged, whatever bytes follow it |
| `Pixels.WirePixelLooks` | server/core/convert.c:36-68 | an XRGB8888 client gets the pixel itself; an RGB565 client gets red, green and blue in the top five, middle six and low five bits, each off by no more than the bits cut and, dithered, half a step more |
| `Pixels.DitherKeepsAverage` | server/core/convert.c:57-67 | over a 4 by 4 block of one midtone colour the dithered fields add up to the colour less half a step, exactly, in every channel |
| `Pixels.BlackIsBlack` | server/core/convert.c:36-68 | a black pixel is black on the wire at every dither phase, so a zeroed receiver already shows it |
| `Pixels.ImageRoundTrip` | view/net.c:399-412 | the packed rows of a rect are read back pixel by pixel |
| `Geometry.AddRect` | server/core/xmit.c:104-122 | the new list swallows the old one and the new rect, stays within its limit and the screen, and is exactly: the first touched rect enlarged, or the rect appended, or the tight bounding box of everything |
| `Geometry.TouchMeaning` | server/core/xmit.c:89-94 | two rects touch if and only if a pixel of one is a pixel of the other or next to it, corners included |
| `Stream.TakePrefix` | view/net.c:714-830 | the header-then-payload loop, fed any prefix of the bytes of accepted messages, takes out a prefix of these messages, keeps the rest and never drops the connection |
| `Stream.TakeChunks` | view/net.c:714-830 | what is taken out of a stream does not depend on where the reads cut it |
| `Stream.PhaseMeaning` | server/core/xmit.c:190-231 | the phase is that of an open episode if and only if an access unit is not followed by an end of episode |
| `Stream.GrammarMeaning` | server/core/xmit.c:190-231 | in a stream that obeys the grammar every episode opens with an IDR, no rect lies inside an episode, and the first pixels after an end are a full snapshot or a new IDR |
| `Stream.GrammarFaults` | server/core/xmit.c:190-231 | a stream breaks the grammar in three ways only: an episode opened by an ordinary access unit, a rect inside an episode, a partial picture first after an end |
| `Stream.OversizedDrops` | view/net.c:603-606 | an access unit longer than the receivers' buffer drops the connection |
| `Framing.SendSegment` | server/core/xmit.c:425-440 | whatever part of a frame segment the socket takes, accepted bytes, rest of the frame and queue stay the submitted messages in order |
| `Framing.SendQueued` | server/core/xmit.c:446-461 | the same for any part of a queued control message |
| `TxState.SwitchKeeps` | server/core/xmit.c:190-231 | every mode switch, at any moment, keeps the picture invariant |
| `TxState.RectMirrors` | server/core/xmit.c:271-311 | after a rect was sent every pixel that does not wait shows the shadow once all submitted messages are delivered, on XRGB8888 the very value, on RGB565 its three channels |
| `TxState.ChangeKeeps` | server/core/xmit.c:154-182 | a change of the frame keeps the invariant as long as the changed pixels count as unreported |
| `Xmit.Client.constructor` | server/kvm/capture.c:125-137 | a fresh connection satisfies the invariant: with a black first frame everything is accounted for, otherwise every pixel waits for its first report |
| `Xmit.Client.Control` | server/core/xmit.c:66-73 | a control message goes behind everything submitted so far and arms the write watch; with a teardown scheduled it is dropped |
| `Xmit.Client.SetMode` | server/core/xmit.c:190-231 | leaving H.264 makes the next frame a full snapshot and ends the episode, or is recorded as a cut when the end can no longer be queued; entering forces an IDR; the rest of the state is as specified |
| `Xmit.Client.Trim` | server/core/xmit.c:131-150 | the trimmed rect keeps every differing pixel, starts and ends at differing rows, and is dropped exactly when nothing differs |
| `Xmit.Client.Accumulate` | server/core/xmit.c:154-182 | a reported rect waits if and only if one of its pixels differs from the shadow; what then waits holds every differing pixel, is the reported rect cut to the screen, and begins and ends with a differing row |
| `Xmit.Client.Damage` | server/core/xmit.c:154-182 | a damage report accounts for all its rects, keeps the invariant and leaves no work without a wake-up; rects that find room and touch nothing make only pixels of their own wait |
| `Xmit.Client.BuildNextRaw` | server/core/xmit.c:384-405 | the next message carries the full frame or the first waiting rect with pixels that look like the current ones, compressed if and only if that is smaller, and the rest keeps waiting |
| `Xmit.Client.BuildH264` | server/core/xmit.c:314-348 | an access unit is marked as IDR if one was forced, an empty answer spends the force, an error ends H.264 with an end of episode and a snapshot |
| `Xmit.Client.FinishFrame` | server/core/xmit.c:424-443 | the frame in flight goes out by socket calls that are answered in order; `sent` grows by exactly the accepted bytes; blocked means that the last call took nothing, lost that it failed, and else the frame is finished |
| `Xmit.Client.DrainQueue` | server/core/xmit.c:445-461 | control messages leave in order, before any new frame is built, and `sent` grows by exactly what the calls took; blocked means that the last call was short, lost that it failed |
| `Xmit.Client.OnOutReady` | server/core/xmit.c:413-470 | one dispatch, also with a teardown scheduled: `sent` grows by exactly what its socket calls took, the peer is given up if and only if it hung up or a call failed, and the pass is blocked if and only if the last call was short; otherwise the full frame or the first waiting rect, or the access unit, is built, or the encode is paced; the whole invariant is kept, work is left without a wake-up if and only if the encoder failed with no pacing timer running, and the grammar breaks if and only if the state before said so |
| `Xmit.Client.RetryTimer` | server/core/xmit.c:350-357 | the pacing timer never leaves work without a wake-up |
| `Xmit.Client.ScheduleTeardown` | server/core/session.c:140-144 | a teardown scheduled by the watchdog, the parser or the source leaves the write watch as it is and keeps the invariant |
| `Xmit.Client.WireIsSubmissionOrder` | server/core/xmit.c:413-470 | in every reachable state the bytes the socket accepted are complete messages in submission order plus less than one more message, and the receive loop takes out exactly these |
| `Xmit.Client.PixelFollows` | server/core/xmit.c:154-182 | in RAW mode a pixel that neither waits nor is unreported shows the local frame once the submitted messages are delivered: the frame's own value on XRGB8888, its channels within the dither's bounds on RGB565 |
| `Xmit.Client.Converged` | server/core/xmit.c:104-311 | with nothing left to do in RAW mode the receiver shows the local frame pixel for pixel, in the same sense, after any history of damage, partial sends, overflows and episodes |
| `Xmit.Client.GrammarHolds` | server/core/xmit.c:190-231 | in every reachable state the grammar holds if and only if no episode was opened loosely and no rect strayed into one; the first takes a swallowed IDR, the second takes H.264 being left in an open episode after a teardown was scheduled, and until then RAW mode is never inside an episode |
| `Xmit.Client.DrainAll` | server/core/xmit.c:413-470 | with a socket that takes at least one byte each time the engine comes to rest and the remote picture is the local one, in the same sense |
| `Xmit.Client.Run` | server/core/xmit.c:53-470 | any sequence of frames, reports, control messages, switches, timers, dispatches and a scheduled teardown keeps the invariant; work is left behind only after an encoder error, and a rect strays into an episode only after a teardown was scheduled |
| `Xmit.EncoderErrorSticks` | server/core/xmit.c:327-332 | after an encoder error the end of episode and the snapshot really wait with nothing armed |
| `Xmit.SwallowedIdrBreaksGrammar` | server/core/xmit.c:325-335 | an encoder that answers a forced IDR with nothing really makes an episode open with an ordinary access unit |
| `Xmit.TeardownBreaksGrammar` | server/core/xmit.c:66-73 | leaving H.264 after the teardown was scheduled really sends a snapshot inside the open episode |
| `ViewNet.Viewer.DamageAdd` | view/net.c:376-396 | pending damage and the new rect stay covered: appended below 32 rects, collapsed into the tight bounding box at 32 |
| `ViewNet.Viewer.PutRect` | view/net.c:399-423 | a rect changes exactly the pixels it covers, to the ones it carries, and keeps the texture's rule |
| `ViewNet.Viewer.ApplyVideo` | view/net.c:537-672 | an access unit or end of episode shows every picture the decoder returned, in order; the connection is dropped exactly when the decoder fails or stays silent too long |
| `ViewNet.Viewer.Receive` | view/net.c:675-844 | whatever arrives and however it is cut, exactly the messages of the stream are applied and the framebuffer shows every pixel they determine |
| `ViewNet.Viewer.Refresh` | view/sremfb-view.c:260-294 | texture and framebuffer agree outside pending damage at all times, and are equal after a pull, a new connection included |
| `ViewNet.Viewer.SetStream` | view/net.c:351-373 | a new connection starts from a zeroed framebuffer, fully damaged, in a new generation |
| `EndToEnd.SamePicture` | view/net.c:399-423 | engine at rest in RAW mode and all bytes received: the viewer's framebuffer is the local frame, value for value on XRGB8888 and channel for channel on RGB565 |
| `EndToEnd.AppliedInOrder` | view/net.c:714-830 | whatever part of the stream has arrived, the viewer applied a prefix of the submitted messages, in order |
| `EndToEnd.Synchronise` | view/sremfb-view.c:260-294 | from any state of a RAW connection: drain byte by byte if need be, receive in two pieces cut anywhere, pull once, and the texture is the local frame in the same sense |
| `PlugHistory.TruncationHarmless` | server/evdi/evdi.c:828-830 | cutting a list with a bounded window to its newest 1024 events changes no count in the window, no reopening moment of the caps and no backoff |
| `PlugHistory.PrunedStandsFor` | server/evdi/evdi.c:801-831 | what pruning leaves stands for the full history in every question the gate asks, now and later |
| `PlugHistory.BackoffSaturates` | server/evdi/evdi.c:883-891 | from the fourteenth failure on the backoff is half an hour, so an undercounted run gives the same delay |
| `PlugCaps.CapsHold` | server/evdi/evdi.c:844-903 | no half-open hour of a gnome-shell lifetime holds more than 60 plugs, nor more than 15 mode timeouts plus the clients that may wait at once |
| `PlugGate.Server.Prune` | server/evdi/evdi.c:801-831 | in-place compaction keeps the list standing for the full history, empties both when the shell changed, and leaves at most 1024 events |
| `PlugGate.Server.Record` | server/evdi/evdi.c:833-840 | the event is appended to the full history that the list stands for |
| `PlugGate.Server.WindowFreeAt` | server/evdi/evdi.c:844-864 | the moment at which the cap-th newest event of a kind leaves the window, 0 when there are fewer |
| `PlugGate.Server.Gate` | server/evdi/evdi.c:866-903 | verdict, reason and reopening moment computed from the pruned list are those of the full history; the reason names the rule whose own moment is the reopening one |
| `PlugGate.Server.Acquire` | server/evdi/evdi.c:1359-1376 | a client is let in if and only if the full history has reopened |
| `PlugGate.Server.ModeTimeout` | server/evdi/evdi.c:1040-1078 | a timeout of a client plugged at least 10 s ago keeps the caps of the run |
| `PlugGate.Server.HourlyCaps` | server/evdi/evdi.c:844-903 | the hourly caps hold in every reachable state |
| `PlugGate.OpensExactly` | server/evdi/evdi.c:866-903 | without new events the gate is closed at every time before its reopening moment and open from then on; the moment is the maximum of the active reasons |
| `PlugGate.BackoffRespected` | server/evdi/evdi.c:883-891 | past the budget an open gate means that 60 s, doubled per failure and at most 30 min, have passed since the last failure |
| `PlugGate.TimeoutsAttained` | server/evdi/evdi.c:766-767 | for each number m of clients that may wait at once some run, with 10 s between a plug and its timeout, really has 15 + m mode timeouts in one hour |
| `Cursor.OutsideClip` | server/evdi/evdi.c:120-131 | the plane changes nothing outside its clipped rect |
| `Cursor.BlendOnTop` | server/evdi/evdi.c:189-199 | an opaque cursor pixel shows its own colour, a clear one the desktop, and in between each channel is the premultiplied source plus its share of the desktop, rounded to the nearest and at most 255 |
| `Cursor.TightUsable` | server/evdi/evdi.c:328-331 | a tightly packed image of any size up to 512 by 512 can be shown |
| `Cursor.Overlay.Lift` | server/evdi/evdi.c:135-151 | lifting the cursor restores the bare desktop |
| `Cursor.Overlay.Draw` | server/evdi/evdi.c:168-207 | drawing saves exactly the covered pixels; each pixel of the plane inside the screen then is on top of the desktop, and the rest of the frame is the desktop |
| `Cursor.Overlay.Set` | server/evdi/evdi.c:314-345 | after a shape event every pixel of the image, found in the words by its row stride, is on top of the desktop at its place; an unusable image leaves the bare desktop; every changed pixel is reported |
| `Cursor.Overlay.Move` | server/evdi/evdi.c:347-359 | after a move each pixel of the plane is on top of the desktop at the new place, the rest is the desktop, and every changed pixel is reported |
| `Cursor.Overlay.Grab` | server/evdi/evdi.c:244-267 | after a grab each pixel of the plane is on top of the new desktop, the rest is the new desktop; if the cursor was on screen as it should, the grabbed rects report every changed pixel |
| `Evdi.Screen.Update` | server/evdi/evdi.c:224-267 | on a live connection what the engine has not been told of only shrinks, by the rects of every grab, and is empty after a grab that covers the screen |
| `Evdi.ScreenFollowsDesktop` | server/evdi/evdi.c:109-117 | everything reported and the engine at rest in RAW mode: the receiver shows the desktop with the cursor's pixels on top |
| `Tiles.Diff` | server/kvm/diff.c:37-74 | exactly the tiles that differ are marked, all of them without a previous frame, and counted |
| `Tiles.DirtyMeansChanged` | server/kvm/diff.c:37-74 | a tile is dirty if and only if one of its pixels has a byte that changed |
| `TileRects.Rects` | server/kvm/diff.c:81-136 | the rects are the merged runs while they fit the limit, else one smallest bounding box; never more than the limit |
| `TileRects.RectsExact` | server/kvm/diff.c:81-136 | merged rects are within the frame and pairwise disjoint |
| `TileRects.RectsCover` | server/kvm/diff.c:81-136 | a pixel lies in a merged rect if and only if its tile is dirty |
| `TileRects.OverflowBox` | server/kvm/diff.c:131-134 | on overflow the rect holds every pixel of the dirty tiles and lies in every rect that does |
| `Convert.ConvertRect` | server/kvm/convert_uyvy.c:63-91 | exactly the pixels of the rect, widened to whole UYVY pairs and cut to the convertible width, become the conversion of the frame |
| `Convert.ConvSame` | server/kvm/convert_uyvy.c:30-61 | a pixel whose bytes, and in UYVY its pair's, did not change converts to the same colour |
| `Convert.ConvColoured` | server/kvm/convert_uyvy.c:25-61 | an RGB24 pixel keeps its three bytes; a UYVY pixel has the colour that BT.601 codes by its luma and its pair's chroma, in full or limited range, each channel off by less than one |
| `Capture.RectsReport` | server/kvm/diff.c:81-136 | at any limit the rects cover the dirty tiles, stay in bounds and, with even tiles, start and end on UYVY pairs, the bounding box included |
| `Capture.Untouched` | server/kvm/convert_uyvy.c:63-91 | a pixel that no conversion touched converts to what it was, for any tile size |
| `Capture.Grabber.Fill` | server/kvm/capture.c:313-329 | the driver may rewrite any buffer it owns at any moment without touching the picture |
| `Capture.Grabber.FrameReady` | server/kvm/capture.c:331-352 | after every frame the master image is the conversion of the whole frame; the retained buffer is never with the driver; the rects hold every pixel that moved, and within the limit none but those of tiles that changed; an equal frame gives none |
| `Capture.Grabber.FrameDropped` | server/kvm/capture.c:377-384 | a truncated frame goes straight back and changes nothing else |
| `Kvm.Feed.OnFrame` | server/kvm/capture.c:222-264 | after every frame the client's frame is the master image and nothing that moved is unreported; a due repaint sends UNBLANK and everything; otherwise no message is queued, a frame like the one before changes nothing, and where the rects fit and keep apart a pixel waits only if it did before or lies in a tile that changed |
| `Kvm.ScreenFollowsCapture` | server/kvm/capture.c:331-352 | engine at rest in RAW mode: the receiver shows the conversion of the last captured frame, which has the colours of the captured bytes |
| `Blit.NextPlaces` | client/v4l2dec.c:387-463 | no step of either thread moves a capture buffer to two places or to none |
| `BlitOrder.OnePlace` | client/sremfb-client.c:439-500 | in every interleaving a capture buffer is with the driver, the receive thread, the mailbox, the blit in progress or lost, and in exactly one of these |
| `BlitOrder.NoneLost` | client/v4l2dec.c:387-463 | as long as no ioctl fails no capture buffer is ever lost |
| `BlitOrder.ShownInOrder` | client/v4l2dec.c:412-463 | decoded frames land in decode order, and the newest one has landed when nothing is on its way |
| `BlitOrder.SnapshotStays` | client/sremfb-client.c:909-927 | no decoded frame lands over a RAW rect painted after it was dequeued, so the snapshot after an end of episode stays |
| `BlitOrder.EpisodeEnds` | client/v4l2dec.c:387-463 | a whole episode really goes through: its frame lands, the snapshot after its end lands over it, and every buffer is with the driver again |
| `BlitOrder.ClosedIsStill` | client/sremfb-client.c:996-1000 | buffers are unmapped with the blit thread idle, unless a stop request cut the wait short |
| `BlitOrder.StopCutsShort` | client/sremfb-client.c:467-475 | a stop request really can leave the blit thread with a frame when the buffers go away |
| `Wake.RunKeeps` | view/sremfb-view.c:86-95 | in every interleaving the flag is set exactly while one wake-up is on its way, and published updates are never forgotten |
| `Wake.NoLostWakeUp` | view/net.c:425-460 | with both threads asleep every received update is on the texture, or an event push failed since the last pull; at most one event is queued |
| `Wake.ReadPublishes` | view/net.c:445-460 | in every interleaving a read that may block, or comes when the batch is old enough, publishes all that was written and rings for what is not uploaded; any other read leaves the batch open |
| `Wake.FailedPush` | view/sremfb-view.c:86-95 | a failed push really strands an update, and the next batch brings it along |
| `Upstream.ScanSplit` | server/core/session.c:151-182 | messages, leftovers and the drop decision do not depend on how reads split the stream |
| `Upstream.MagicBytes` | protocol.h:42 | the four bytes that the parser hunts for are the magic of the protocol |
| `Upstream.ScanLeaves` | server/core/session.c:151-182 | a parse that goes on leaves fewer than 16 bytes, so a read always has room |
| `Upstream.ScanResync` | server/core/session.c:154-163 | up to 256 bytes of junk without the magic are skipped without harm |
| `Upstream.TooMuchGarbage` | server/core/session.c:154-163 | one byte of junk more and the client is dropped |
| `Upstream.StreamRoundTrip` | server/core/session.c:151-182 | any well-formed messages are handed on unchanged and in order |
| `Upstream.Receiver.Read` | server/core/session.c:184-204 | in-place reassembly delivers exactly the parse of everything read so far |
| `HidMap.Inverse` | server/kvm/hidmap.c:41-189 | no two keys share a usage |
| `HidKeyboard.Keyboard.ReportIsHeld` | server/kvm/input_hid.c:115-120 | a report shows a key exactly when it is held |
| `HidKeyboard.Keyboard.Key` | server/kvm/input_hid.c:77-113 | slots stay compact and free of duplicates; repeats, double presses, unknown keys and a seventh key change nothing; otherwise exactly that key changes |
| `HidKeyboard.Replay.OnKey` | server/kvm/input_hid.c:406-427 | when a release takes effect the press has been reported if and only if the last report did not show the key at its press, or a report was written since |
| `HidKeyboard.Replay.Tap` | server/kvm/input_hid.c:406-427 | a tap within one frame gives two reports, down then up |
| `HidKeyboard.Replay.DoubleTap` | server/kvm/input_hid.c:397-404 | a key still shown by the last report can be tapped within one frame without the target noticing |
| `HidKeyboard.Replay.ReleaseAll` | server/kvm/input_hid.c:387-395 | nothing stays held and an empty report says so |
| `HidMouse.Mouse.Flush` | server/kvm/input_hid.c:339-352 | the reports of a SYN stay within 127 units, add up to the motion up to 4064 units an axis, and are no more than needed |
| `HidMouse.Mouse.OnButton` | server/kvm/input_hid.c:429-454 | the same for buttons, so a click within one frame is seen; other events write no report and keep the motion |
| `Uinput.PairedUp` | server/core/input.c:568-580 | presses and releases of a key pair up: one more press exactly while it is held |
| `Uinput.Device.Message` | server/core/input.c:544-611 | each message emits exactly the specified event or nothing; a declared axis, wheel or key then has the value of the message, cut to its range, and nothing else changed; every key keeps alternating |
| `Uinput.Device.Release` | server/core/input.c:364-386 | nothing stays held, the axes with a negative minimum and the triggers are at zero and the others where they were, the last event is a SYN, and an idle device emits nothing |
| `Control.Controller.EvaluateRaw` | server/core/control.c:151-196 | H.264 is entered exactly when pressure was confirmed, the client may use it and the encoder opens |
| `Control.Controller.EvaluateH264` | server/core/control.c:199-253 | RAW is probed exactly after ten calm seconds that predict a fit, or after the backed-off streak without continuous damage |
| `Control.Controller.Evaluate` | server/core/control.c:147-255 | one evaluation makes of the controller's standing exactly what the decision function says, by the measurements of the moment; an entry is recorded when and only when H.264 is entered |
| `Control.Controller.JudgedByFrames` | server/core/control.c:137-145 | steady damage that gets through at less than 15 frames a second counts as pressure as well; with quick echoes and frames in time an unconfirmed suspicion is dropped |
| `Control.Controller.OnPong` | server/core/control.c:301-323 | a plausible echo proves the peer alive, enters the delay average outside the grace period, and leads to one evaluation; a garbage echo changes nothing |
| `Control.AverageFollows` | server/core/control.c:301-323 | whatever the delay average was, it comes as near to what the echoes stay above, or below, as 0.7 to the power of their number says |
| `Control.FourLateEchoes` | server/core/control.c:301-323 | four echoes later than 200 ms put any average above the pressure threshold |
| `Control.Controller.OnDamage` | server/core/control.c:356-366 | a damage report restarts or continues the streak, feeds the traffic meters and leads to one evaluation |
| `Control.Controller.OnDeliver` | server/core/control.c:370-383 | a delivery feeds the frame rate and the traffic meters and leads to one evaluation |
| `Control.Controller.WontFitMeaning` | server/core/control.c:234-243 | RAW would not fit if and only if the link's capacity is known and the compressed damage takes more than half of it or one frame more than 75 ms |
| `Control.ProbeWaits` | server/core/control.c:244-246 | a probe against the odds waits half a minute, twice as long after each failed one, and never more than 32 minutes |
| `Control.Controller.Aimd` | server/core/control.c:261-275 | the bitrate stays within 1500 and 40000 kbit/s for every delay; under pressure it is cut to seven tenths, while frames are encoded and echoes are quick it grows by 500, and else it stays |
| `Control.Controller.Tick` | server/core/control.c:385-422 | the peer is dropped exactly when a ping is in flight and no echo came for six seconds; never more than four pings are in flight; an idle tick lets the averages decay and leads to one evaluation |
| `Control.Controller.EntriesBounded` | server/core/control.c:147-255 | any j - i successive entries into H.264 take more than (j - i) times 12.5 s |
| `Session.Connection.OnReport` | server/core/xmit.c:154-182 | a damage report accounts for its rects; if it leaves something to send the controller evaluates exactly once and the engine makes the move it decides on, otherwise neither changes |
| `Session.Connection.OnWritable` | server/core/xmit.c:314-348 | a dispatch paced by the controller: every delivery leads to one evaluation whose move the engine makes, an encoder error ends H.264 on both sides, two encodes under pressure are at least 66.666 ms apart, and work is left behind only by an encoder error |
| `Session.Connection.OnPong` | server/core/control.c:301-323 | a plausible echo leads to one evaluation whose move the engine makes, a garbage one changes nothing |
| `Session.Connection.OnTick` | server/core/control.c:385-422 | the teardown is scheduled exactly for a peer with a ping in flight and no echo for six seconds; otherwise the counted ping is queued behind everything else, after the end of an episode that the tick closed, and both sides agree afterwards |
| `Session.Connection.Agreement` | server/core/control.c:147-255 | in every reachable state the transmit engine is in H.264 only if that is negotiated, open and not failed, in RAW whenever the controller is, and out of step with it only after a failure |
| `Session.Connection.RunPressed` | server/core/control.c:147-198 | over any run with late echoes all along, H.264 negotiated and a working encoder: one echo when the grace period is over and one more than half a second later, and the engine is in H.264 when the run ends, whatever else it holds |
| `Session.Connection.RunCalm` | server/core/control.c:206-254 | over any run with quick echoes all along: by an echo ten seconds after another the engine is in RAW, unless it entered H.264 afresh in between, or RAW would not fit and the longer wait is not over or damage keeps coming |
| `Session.Connection.Run` | server/core/control.c:147-255 | over any run of a connection controller and transmit engine agree, entries into H.264 keep their distance, backoff and rates stay in range, and no entry follows a failure |

## Left out

- The hello exchange, the handshake and the choice of capabilities: a connection starts streaming.
- `sremfb_xmit_reset` and mid-stream mode changes: they end the connection in the model, since a partly sent frame is dropped there.
- The scratch buffers `rectbuf` and `sendbuf`: message bytes are values; `dirty[]` is a sequence of at most 16 rects; a missing shadow buffer is not modelled.
- LZ4 is an abstract pair of functions, x264 and the decoders are parameters; the raw size of a frame is assumed to fit the compressor's limit.
- Colours of decoded H.264 pictures: pixels are bound to the local frame in RAW mode only.
- Xmit.Client.GrammarHolds: does not say that no IDR is ever swallowed; `server/core/encoder.c:110-112` calls an empty answer impossible with zerolatency, and the encoder is assumed to honour a forced IDR.
- Xmit.Client.BuildH264: takes access units up to the 1 MiB that both receivers accept; the server itself sets no limit, and `Stream.OversizedDrops` says what a longer one does.
- Xmit.Client.Converged: leaves out pixels the source never reported, which for EVDI are those outside the first damage until it covers the screen.
- The board client's framebuffer surviving a reconnect: a receiver starts from a zeroed framebuffer.
- Statistics, logging, the latency probe, dumps and audio.
- Evdi.Screen.Update: when the connection is being torn down no damage is reported, and the frame is not followed any further.
- Device pools, cards, quarantine, self-heal and power save of the EVDI source: only plugs, lit connectors, timeouts and departures reach the plug gate.
- Letterboxing and scaled blits: `Kvm` covers the scale-1 path with equal sizes. Signal loss and mode changes restart the capture.
- Kvm.Feed.OnFrame: where reported rects touch one another or a waiting one, `server/core/xmit.c:104-122` merges them into their hull; how far that reaches into unchanged tiles is said by `Geometry.AddRect` rect by rect only.
- Blit.NextPlaces: the rows of one blit are a repeated write of the same frame; tearing and page flips are not modelled. The decoder is assumed to flag LAST or EPIPE only when nothing is owed any more.
- Wake.NoLostWakeUp: the mailbox content is counted, its pixels are in `ViewNet`; shutdown and expose events are left out.
- Upstream.Receiver.Read: what is still parsed between the drop decision and the teardown is not modelled.
- HidMouse.Mouse.Flush: integers are unbounded, the program's accumulators are 32 bits wide.
- HidKeyboard.Replay.OnKey: reports count as written; one that the target does not read is lost in the program.
- The absolute pointer's report and its mapping, the gamepad on HID, LED output reports.
- Clients without feedback: `Session` is about the others; without it the controller is never asked.
- Controller arithmetic: rates are reals, rounding is not modelled. The controller's decisions and the pacing of encodes are parameters of `Xmit`, where they may come at any moment.
- Refresh of the keymap and of the desktop layout: the mapping of a pointer coordinate is a parameter of `Uinput.Device.Message`.
