# A verified model of the deepin remote desktop server

The server sends a captured screen to an RDP client. These modules model the parts of it that keep
state across frames, threads or connections, and prove what that state guarantees over whole runs.

| module | models |
|---|---|
| `TileHash`, `TileGrid` | the 64-bit tile hash and the 64x64 tile grid |
| `EncoderSpec`, `EncodingManagers` | the surface encoder: once as a value with one function for each operation, once as the object whose methods update it in place and are proved against those functions |
| `EncoderAnswers` | what the encoder's replies, updates and choice of codec mean |
| `EncoderRuns` | every run of the encoder beside the surface the client shows |
| `EncoderTiming` | when refreshes fall due, by the options and frames of a run |
| `Backpressure` | the counter of unacknowledged frames and the protocol of render thread and client (section 2.2.2.13 of MS-RDPEGFX) |
| `RenderLoop` | encoder and pipeline together: what is counted is what the encoder answers |
| `FrameQueues` | the drop-oldest capture queue |
| `CapturePacing` | the deadline arithmetic of the capture loop |
| `ClosedCallback` | the closed callback against threads on their way out |
| `RoutingTokens` | the X.224 connection request (section 2.2.1.1 of MS-RDPBCGR, section 6 of RFC 1006) |
| `HandoverIds`, `HandoverBroker`, `SystemDaemons` | the handover broker: tokens and paths, the value, the object with shared client records |
| `HandoverAnswers` | what the broker's answers mean for the client they are about |
| `HandoverRuns`, `HandoverLives` | every run of the broker under conforming handover daemons, and how a client's time in it can end |
| `Wrappers` | the option type |

Codecs, transport, clocks and random numbers are parameters: each encode is told how far the codec
and the send got (`Outcome`), each wait what woke it, each operation what time it is. The client of
the encoder applies exact updates exactly, shows anything at all after an AVC frame, and anything at
all after a progressive or RemoteFX send that failed half-way. Frames satisfy what the code asserts
or needs: width and height in 1..65535, stride at least four bytes a pixel, stride times height
below 2^32.

## What the proofs found

* **A still screen can stay lossy for good.** Refresh tracking starts with the first non-AVC frame
  *sent* after an AVC frame. If the screen stands still after an AVC frame, nothing is dirty, no
  non-AVC frame is sent, and no refresh falls due; the session's refresh timer runs only while the same
  tracking is on (src/session/drd_rdp_session.c:1467-1488). Under the settings of one connection a screen
  with a lossy tile stays so for good exactly if no keyframe is due and none ever will be, or if an
  unchanged screen gets no exact codec, as without automatic mode for every client that announces AVC
  (`EncoderRuns.StaysLossyIff`). `EncoderRuns.StillScreenGapIsReachable` is a run into the first state.
* **Acknowledgements can be lost to the count, and frames without data are counted.** Frames are counted
  after they are sent, so an acknowledgement can come before the count and find nothing to subtract. That
  costs one credit at most. An encode that reports success without sending, as happens with no usable
  codec or when the progressive codec produces nothing (`EncoderRuns.SilentSuccessIff`), costs one more
  each time. With s such encodes the renderer can block for good exactly if fewer than s + 2 frames may
  be outstanding (`Backpressure.DeadlockFreeIffRoomLeft`); with the default room for three, two suffice
  (`Backpressure.PhantomFramesDeadlock`). A client without a usable codec that does not suspend always
  ends there: the renderer stops after exactly as many frames as may be outstanding
  (`RenderLoop.NoCodecStarvesRenderer`).
* **More frames can be in flight than the limit says.** Frames sent to a suspended client that it
  acknowledges all the same, and acknowledgements that arrive after a suspension forgave them, each put
  one frame more in flight, and nothing else does (`Backpressure.FlightWithinIff`).
* **The closed callback can be lost** if every thread that leaves takes an exit that does not clear
  `connection_alive`, as the WAIT_FAILED exit does not
  (`ClosedCallback.NeverLostIffFlagCleared`). Whenever any thread can leave during the installation,
  it can also run before its user data is stored (`ClosedCallback.NeverBlindIffNobodyLeaves`).
* **Clients dispatched a second time stay in the table for ever**, together with their tokens: a client
  that is held after its first hand-over can never leave, every other one still can
  (`HandoverLives.NeverLeavesIffKept`). A comment in the code marks the missing removal.
* **`remote_id` follows the token sent, not the token given**, when the one sent belongs to a client in
  session (`HandoverRuns.RemoteIdMatchesIff`; `HandoverLives.MismatchIsReachable` is such a run).
* **A peek at a connection that closes early does not end.** Peeking takes nothing out, so after the peer
  has closed every round finds the bytes that came before, and the loop of
  src/transport/drd_rdp_routing_token.c:110-152 goes round until an error or a cancellation, which the
  delegate never requests. That happens exactly for clients that stop short of a request that is not
  refused (`RoutingTokens.PeekNeverEndsIff`; four bytes of a TPKT header are such an input,
  `RoutingTokens.ClosedAfterHeader`).

* **Captures need damage.** The comment above the capture loop says that every interval grabs a frame and
  that damage events serve statistics only (src/capture/drd_x11_capture.c:477-482); the code grabs only in
  a turn that saw damage (556-567). The model follows the code.

## Model

| member | source | states |
|---|---|---|
| TileHash.UndoScramble | src/encoding/drd_encoding_manager.c:874-878 | xor-shifts and odd multipliers lose nothing: an explicit inverse gives each chunk back |
| TileHash.MixChunkInjective | src/encoding/drd_encoding_manager.c:872-884 | for a fixed chunk mixing is injective in the hash, for a fixed hash in the chunk |
| TileHash.OneChunkNeverCollides | src/encoding/drd_encoding_manager.c:872-932 | tiles of one shape that differ in exactly one chunk of one row, tails included, never share a hash |
| TileHash.OnePixelNeverCollides | src/encoding/drd_encoding_manager.c:892-932 | tiles of one shape that differ in one pixel never share a hash |
| TileHash.LittleEndian | src/encoding/drd_encoding_manager.c:903-919 | each byte of a word counts in its little-endian place |
| TileHash.LonePixelChunk | src/encoding/drd_encoding_manager.c:923-928 | a pixel left over at the end of a row is hashed as its four bytes with their number in the top byte |
| TileHash.RowsInOrder | src/encoding/drd_encoding_manager.c:897-930 | the hash of the upper rows goes on with the lower ones |
| TileHash.RowsAreCutFromTheLeft | src/encoding/drd_encoding_manager.c:902-928 | a row is cut into words from the left, so only its last piece is short |
| TileHash.HashTile | src/encoding/drd_encoding_manager.c:892-932 | the loop over the rows of the frame buffer computes the hash of exactly the tile's pixels, whatever the padding |
| TileHash.HashRow | src/encoding/drd_encoding_manager.c:899-928 | the 16-byte, 8-byte and tail loops mix a row's chunks in order |
| TileHash.CompareTiles | src/encoding/drd_encoding_manager.c:1125-1133 | row-wise comparison answers exactly whether the two tiles differ |
| TileGrid.PixelTile | src/encoding/drd_encoding_manager.c:1024-1031 | the number computed from a pixel is the number of a tile that contains the pixel |
| TileGrid.TileOfPixel | src/encoding/drd_encoding_manager.c:1024-1031 | a tile lies inside the frame and is the only one that contains its pixels |
| TileGrid.EveryNumberIsATile | src/encoding/drd_encoding_manager.c:1024-1031 | tile numbering is onto 0..tiles-1 |
| TileGrid.TileNumbersAreDistinct | src/encoding/drd_encoding_manager.c:1024-1031 | tile numbering is one-to-one and in range |
| TileGrid.DirtyRectsCover | src/encoding/drd_encoding_manager.c:1024-1056 | the emitted rectangles cover exactly the pixels of flagged tiles, so with all flags set the whole frame |
| TileGrid.DirtyRectsPartition | src/encoding/drd_encoding_manager.c:1024-1056 | the emitted rectangles are pairwise disjoint, non-empty and inside the frame |
| TileGrid.PatchTile | src/encoding/drd_encoding_manager.c:1024-1056 | a client that applies the emitted rectangles ends up with the new tile where flagged and its old tile elsewhere |
| EncodingManagers.EncodingManager.constructor | src/encoding/drd_encoding_manager.c:115-152 | a new manager is the initial encoder: not ready, nothing remembered, keyframe forced |
| EncodingManagers.EncodingManager.Prepare | src/encoding/drd_encoding_manager.c:489-530 | configuration, its two refusals, and the reset on a change of size |
| EncodingManagers.EncodingManager.Reset | src/encoding/drd_encoding_manager.c:538-581 | the whole state after a reset, and that a manager that is not ready is left alone |
| EncodingManagers.EncodingManager.ForceKeyframe | src/encoding/drd_encoding_manager.c:1653-1657 | only the keyframe flag changes |
| EncodingManagers.EncodingManager.RefreshIntervalReached | src/encoding/drd_encoding_manager.c:597-621 | due exactly when a started transition has used up its frame budget or its time |
| EncodingManagers.EncodingManager.RegisterCodecResult | src/encoding/drd_encoding_manager.c:680-737 | the refresh tracking after each class of frame |
| EncodingManagers.EncodingManager.PrepareGfxDiffState | src/encoding/drd_encoding_manager.c:940-965 | a change of geometry zeroes frame and hashes and forces a keyframe; otherwise nothing changes |
| EncodingManagers.EncodingManager.StorePreviousFrame | src/encoding/drd_encoding_manager.c:967-975 | the remembered frame becomes the given one |
| EncodingManagers.EncodingManager.UpdateTileHashes | src/encoding/drd_encoding_manager.c:983-1002 | every table entry becomes the hash of its tile |
| EncodingManagers.EncodingManager.CollectDirtyTiles | src/encoding/drd_encoding_manager.c:1010-1059 | the nested loops emit the rectangles of the flagged tiles in tile order, and say whether there are any |
| EncodingManagers.EncodingManager.AnalyzeTiles | src/encoding/drd_encoding_manager.c:1079-1155 | a tile is flagged exactly when its hash is new and its bytes differ, or there is no previous frame; the count is the number of flagged tiles, and the verdict is that they are at least the threshold's share of all tiles |
| EncodingManagers.EncodingManager.SelectCodec | src/encoding/drd_encoding_manager.c:1226-1307 | the codec preference in both modes |
| EncoderSpec.PickedCodec | src/encoding/drd_encoding_manager.c:1226-1307 | the picked codec is usable; none is picked if and only if none is usable; an exact one if and only if there is one and either no AVC or a small change in automatic mode without hardware encoding; and which of each kind |
| EncodingManagers.EncodingManager.EncodeAvcFrame | src/encoding/drd_encoding_manager.c:1319-1460 | commit on success, nothing on failure |
| EncodingManagers.EncodingManager.EncodeExactFrame | src/encoding/drd_encoding_manager.c:1461-1606 | keyframe or delta, the commit, and what each failure leaves behind |
| EncodingManagers.EncodingManager.EncodeSurfaceGfx | src/encoding/drd_encoding_manager.c:1180-1620 | one whole encode refines the specification function |
| EncodingManagers.EncodingManager.EncodeCachedFrameGfx | src/encoding/drd_encoding_manager.c:632-678 | the remembered frame is re-encoded with a forced keyframe |
| EncodingManagers.EncodingManager.PullFrame | src/core/drd_server_runtime.c:204-256 | a capture that times out while a refresh is due takes the cached path; any other failed capture changes nothing |
| EncoderAnswers.RepliesAreTruthful | src/encoding/drd_encoding_manager.c:1216-1620 | for every encode and cached encode the renderer is told H264 if and only if a lossy frame was sent, an exact frame never is, and a refusal or a torn send is no success |
| EncoderAnswers.UpdateIs | src/encoding/drd_encoding_manager.c:1319-1606 | a lossy frame goes out if and only if an AVC codec is picked and the send succeeds, an exact one if and only if an exact codec is picked, the send succeeds and there was something to send; all of the frame when a keyframe is due, else the dirty rectangles |
| EncoderAnswers.DeltaRepaintsDirtyTiles | src/encoding/drd_encoding_manager.c:1010-1059 | a delta frame repaints exactly the pixels of the tiles whose hash is new and whose bytes differ |
| EncoderAnswers.PendingAndFailed | src/encoding/drd_encoding_manager.c:1339-1578 | exactly when a prepared encoder answers pending, and exactly when failed |
| EncoderAnswers.FailureLeaves | src/encoding/drd_encoding_manager.c:1480-1606 | an encode that sends nothing whole keeps the remembered frame; a keyframe that did not get through leaves zeroed hashes, a torn one also forces the next |
| EncoderAnswers.ExactIffFewTiles | src/encoding/drd_encoding_manager.c:1079-1289 | in automatic mode without hardware encoding a client with both kinds of codec gets an exact one if and only if the tiles to be sent are fewer than the threshold's share of all tiles |
| EncoderAnswers.NoAvcNoH264 | src/encoding/drd_encoding_manager.c:1226-1307 | a client that announces no AVC is never told H264 |
| EncoderRuns.RunInv | src/encoding/drd_encoding_manager.c:489-1620 | the invariant behind the theorems below holds after every run of prepare, reset, force, encode and cached encode with any outcomes |
| EncoderRuns.ClientMirrorsServer | src/encoding/drd_encoding_manager.c:1180-1620 | unless a keyframe is forced, each tile the client did not last get through AVC hashes like the remembered tile, and never differs from it in one chunk only |
| EncoderRuns.ClientShowsFrame | src/encoding/drd_encoding_manager.c:1180-1620 | with no lossy tile left the client shows the remembered frame, or two different tiles collided |
| EncoderRuns.HashesTrueOrKeyframeDue | src/encoding/drd_encoding_manager.c:940-1002 | at the start of every encode all stored hashes are those of the remembered frame, or the next non-AVC frame is a keyframe at any later time |
| EncoderRuns.LossyTilesExpire | src/encoding/drd_encoding_manager.c:597-621 | at most max(1, interval-1) delta frames follow an AVC frame, and once they are used up a keyframe is due |
| EncoderTiming.RunsAsConfigured | src/encoding/drd_encoding_manager.c:489-530 | in every run a ready encoder works with the threshold, interval, timeout, diff and hardware options of its last successful prepare |
| EncoderTiming.ReadyIffPrepared | src/encoding/drd_encoding_manager.c:489-581 | in every run the encoder is ready if and only if the last prepare or reset that counted was a successful prepare |
| EncoderTiming.FrameKeptIffSameSize | src/encoding/drd_encoding_manager.c:504-507 | in every run a reset forgets the remembered frame, and a prepare keeps it if and only if it asks for the size the frame has |
| EncoderTiming.RefreshDueIff | src/encoding/drd_encoding_manager.c:597-621 | in every run with delta frames after an AVC frame, a keyframe is due if and only if differences are switched off, the next frame would reach the configured interval, or the configured milliseconds have passed since the first delta frame |
| EncoderTiming.LossyWithinOptions | src/encoding/drd_encoding_manager.c:597-621 | at most max(1, interval-1) delta frames follow an AVC frame, by the interval of the last prepare |
| EncoderRuns.SpentBudgetRepaints | src/encoding/drd_encoding_manager.c:1480-1530 | once the budget is spent, the next exact frame that arrives repaints everything exactly, resizes included |
| EncoderRuns.KeyframeRepaints | src/encoding/drd_encoding_manager.c:1481-1530 | a keyframe that arrives leaves no lossy tile, the client equal to the frame, and the hashes true |
| EncoderRuns.CachedRefreshSettles | src/encoding/drd_encoding_manager.c:632-678 | a cached refresh that arrives, with whichever codec, keeps the remembered frame, trues the hashes and ends the transition |
| EncoderRuns.FlaggedIffHashDiffers | src/encoding/drd_encoding_manager.c:1108-1147 | with true hashes the byte comparison decides nothing: flagged if and only if the hash changed |
| EncoderRuns.SmallChangeIsFlagged | src/encoding/drd_encoding_manager.c:1108-1147 | with true hashes a change inside one chunk, such as one pixel, is always flagged |
| EncoderRuns.SilentSuccessIff | src/encoding/drd_encoding_manager.c:1480-1620 | an encode reports success without sending if and only if no codec was picked, or the progressive codec made nothing of a due keyframe or a dirty tile |
| EncoderRuns.NoCodecIffNothingUsable | src/encoding/drd_encoding_manager.c:1236-1307 | no codec is picked if and only if the settings announce none that is usable, whatever the frame |
| EncoderRuns.StillScreenRepaintedIff | src/encoding/drd_encoding_manager.c:1480-1500 | an unchanged screen is sent exactly if and only if a keyframe is due, an exact codec is picked and the send succeeds |
| EncoderRuns.StillScreenStaysLossy | src/encoding/drd_encoding_manager.c:597-621 | right after an AVC frame one encode of an unchanged screen sends nothing exact, and no refresh falls due at any later time |
| EncoderRuns.StillScreenStaysLossyForever | src/encoding/drd_encoding_manager.c:597-621 | in the stuck state any number of encodes of an unchanged screen, with any settings and outcomes, keeps the state and every lossy tile lossy |
| EncoderRuns.InexactStaysLossy | src/encoding/drd_encoding_manager.c:1229-1307 | under settings that give an unchanged screen no exact codec, any number of encodes of it keeps every lossy tile lossy, keyframe due or not |
| EncoderRuns.StandingStillIsARun | src/encoding/drd_encoding_manager.c:1180-1620 | a stretch in which the screen stands still is a continuation of the run before it |
| EncoderRuns.StaysLossyIff | src/encoding/drd_encoding_manager.c:597-621 | for every run that left a lossy tile and every fixed connection: however the screen stands still, some tile stays lossy, if and only if no keyframe is due now or ever or an unchanged screen gets no exact codec |
| EncoderRuns.StuckForeverIffNeverDue | src/encoding/drd_encoding_manager.c:597-621 | the same when the settings, too, may change from encode to encode: then only the keyframe counts |
| EncoderRuns.StillScreenGapIsReachable | src/encoding/drd_encoding_manager.c:1180-1620 | for every frame a run in automatic mode, whose hardware preparation succeeds, fails once and succeeds again, leads into the stuck state with every tile lossy |
| Backpressure.GraphicsPipeline.constructor | src/session/drd_rdp_graphics_pipeline.c:214-224 | no surface yet, nothing outstanding, room for three frames |
| Backpressure.GraphicsPipeline.ResetLocked | src/session/drd_rdp_graphics_pipeline.c:102-156 | a new surface starts with clean back-pressure, an existing one is kept |
| Backpressure.GraphicsPipeline.CanSubmitFrame | src/session/drd_rdp_graphics_pipeline.c:360-372 | room, or suspended, or H264, on a ready surface |
| Backpressure.GraphicsPipeline.OutFrameChange | src/session/drd_rdp_graphics_pipeline.c:382-401 | one more or one less, never below zero, nothing while suspended |
| Backpressure.GraphicsPipeline.FrameAck | src/session/drd_rdp_graphics_pipeline.c:772-818 | suspending forgives all, resuming counts again, one frame off or all after H264 |
| Backpressure.GraphicsPipeline.SetLastFrameMode | src/session/drd_rdp_graphics_pipeline.c:824-829 | only the mode changes |
| Backpressure.GraphicsPipeline.WaitForCapacity | src/session/drd_rdp_graphics_pipeline.c:410-451 | the wait loop with its condition variable and deadline computes the recursive wait of the specification |
| Backpressure.WaitEndsWithCapacity | src/session/drd_rdp_graphics_pipeline.c:434-449 | a wait without deadline only ends with capacity, or without a surface |
| Backpressure.CreditBound | src/session/drd_rdp_session.c:1198-1274 | in every interleaving counter plus uncounted send exceed the owed acks by at most one, frames without data apart; the counter is never negative and is zero while suspended |
| Backpressure.AcksDrain | src/session/drd_rdp_graphics_pipeline.c:772-818 | k acks of a blocked renderer's client take exactly k frames off |
| Backpressure.AckAfterH264ClearsAll | src/session/drd_rdp_graphics_pipeline.c:805-815 | in every run the first ack after an H264 frame takes the counter to zero |
| Backpressure.AckTakesOneOff | src/session/drd_rdp_graphics_pipeline.c:805-815 | in every run any other ack takes one frame off, if there is one |
| Backpressure.ManyH264 | src/session/drd_rdp_graphics_pipeline.c:424-428 | for every n a run counts n H264 frames without a wait |
| Backpressure.OneAckSufficesAfterH264 | src/session/drd_rdp_graphics_pipeline.c:805-815 | however many H264 frames are counted, after one ack and one other frame the renderer need not wait, with room for two |
| Backpressure.NeverDisabledIffRoom | src/session/drd_rdp_session.c:1200-1206 | in no run, whatever the client sends between the wait and the second check, is the pipeline given up for congestion, if and only if there is room for a frame at all |
| Backpressure.CountUndone | src/session/drd_rdp_graphics_pipeline.c:382-401 | taking a count back undoes it |
| Backpressure.BlockedThreadIsReleased | src/session/drd_rdp_session.c:1198-1274 | with s sends without data and room for at least s + 2, a renderer blocked at n is owed at least n-1-s acks, and n-max+1 of them release it |
| Backpressure.DeadlockFreeIffRoomLeft | src/session/drd_rdp_session.c:1198-1274 | for every room and every s: no run with at most s sends without data blocks the renderer with nothing owed, if and only if at least s + 2 frames may be outstanding |
| Backpressure.DeadlockFreeIffRoomForTwo | src/session/drd_rdp_graphics_pipeline.c:382-451 | when every counted frame carried data, the renderer never blocks for good if and only if at least two frames may be outstanding |
| Backpressure.PhantomFramesDeadlock | src/session/drd_rdp_session.c:1240-1254 | with room for three, a run in which two frames without data block the renderer with nothing owed |
| Backpressure.DeadlockNeedsPhantoms | src/session/drd_rdp_session.c:1240-1254 | blocked with nothing owed, all counted frames but one came from sends without data |
| Backpressure.FramesInFlightBounded | src/session/drd_rdp_graphics_pipeline.c:360-451 | without H264 the frames still owed an ack exceed the limit only by acks for frames sent during a suspension and by acks that arrive after a suspension forgave them; the counter stays within 0 and the limit |
| Backpressure.FlightWithinIff | src/session/drd_rdp_graphics_pipeline.c:360-451 | without H264 all runs with at most m late frames and k stray acks keep the frames owed an ack within the limit plus b, if and only if b >= m + k |
| Backpressure.OneStrayOverruns | src/session/drd_rdp_graphics_pipeline.c:772-818 | for every limit a run in which one forgiven ack that arrives late puts one frame above the limit in flight |
| RenderLoop.JointRunIsARun | src/session/drd_rdp_session.c:1198-1274 | every run of encoder and pipeline together is a run of the pipeline's protocol, with each send on the wire exactly if the encoder sent |
| RenderLoop.NoAvcNeverH264 | src/session/drd_rdp_session.c:1236-1254 | in every run with a client that announces no AVC, no send is counted as H264 |
| RenderLoop.NoAvcFlightBounded | src/session/drd_rdp_session.c:1198-1274 | so every such run keeps the bound on frames in flight |
| RenderLoop.NoCodecStarvesRenderer | src/session/drd_rdp_session.c:1236-1254 | in every run with a client that announces no usable codec and does not suspend, at most max frames are claimed, the renderer waits exactly when all are, and then no step but a suspension is possible |
| RenderLoop.StarvationIsReachable | src/session/drd_rdp_session.c:1236-1254 | from every prepared encoder and with every frame such a run gets there |
| FrameQueues.FrameQueue.constructor | src/utils/drd_frame_queue.c:76-90 | a new queue is open and empty |
| FrameQueues.FrameQueue.Reset | src/utils/drd_frame_queue.c:110-128 | open and empty, nothing counted as dropped |
| FrameQueues.FrameQueue.PushFrame | src/utils/drd_frame_queue.c:136-163 | the ring appends, dropping and counting the oldest when full, and ignores frames when stopped |
| FrameQueues.FrameQueue.Wait | src/utils/drd_frame_queue.c:171-233 | for every timeout and wake-up: hands out the oldest frame or none, never a null frame |
| FrameQueues.FrameQueue.StopQueue | src/utils/drd_frame_queue.c:242-250 | closes the queue and keeps its frames |
| FrameQueues.RingPush | src/utils/drd_frame_queue.c:158-160 | writing behind the last occupied slot appends to the contents |
| FrameQueues.RingPop | src/utils/drd_frame_queue.c:215-218 | the head slot holds the oldest element, and clearing it removes that one |
| FrameQueues.HistoryHolds | src/utils/drd_frame_queue.c:110-233 | after every run the contents are the last accepted frames in order, deliveries are in push order, and accepted = delivered + dropped + held |
| FrameQueues.ReadDelivers | src/utils/drd_frame_queue.c:213-229 | in every run a read of an open queue that holds frames delivers the oldest one held |
| FrameQueues.PushLosesAtMostOne | src/utils/drd_frame_queue.c:136-163 | in every run an open queue takes each frame, and loses one if and only if it held three |
| FrameQueues.WaitEnds | src/utils/drd_frame_queue.c:192-211 | a wait without deadline comes back empty-handed only from a closed queue, one with timeout zero never sleeps, and one with a deadline ends when it passes |
| FrameQueues.WaitIsARun | src/utils/drd_frame_queue.c:171-233 | every wait, with whatever happens while it sleeps, is a stretch of a run that ends with one read delivering what the wait hands out |
| CapturePacing.CaptureLoop | src/capture/drd_x11_capture.c:525-622 | any k+2 consecutive captures span at least k intervals, failed grabs included; every turn with damage grabs unless another grab was tried less than an interval before, and every grab that succeeds is captured |
| ClosedCallback.Session.NotifyClosed | src/session/drd_rdp_session.c:592-607 | calls once and remembers it; what one thread does alone in the interleaving model |
| ClosedCallback.Session.SetClosedCallback | src/session/drd_rdp_session.c:310-327 | stores callback, then user data, and calls at once if the connection is gone, as the installing thread alone does; removing clears the memory of a call |
| ClosedCallback.Session.StopEventThread | src/session/drd_rdp_session.c:551-584 | clears the flag, then notifies, as a leaving thread alone does |
| ClosedCallback.AloneIsARun | src/session/drd_rdp_session.c:310-327 | an uninterrupted stretch of one thread, as the methods compute it, is one of the interleavings |
| ClosedCallback.NeverTwice | src/session/drd_rdp_session.c:592-607 | in every interleaving the callback runs at most once |
| ClosedCallback.NeverLostIffFlagCleared | src/session/drd_rdp_session.c:955-1036 | in every interleaving it runs, if and only if some leaving thread clears the flag first |
| ClosedCallback.CallbackMayRunBlind | src/session/drd_rdp_session.c:314-315 | for any set of leaving threads but the empty one, an interleaving in which the callback runs before its user data is stored |
| ClosedCallback.NeverBlindIffNobodyLeaves | src/session/drd_rdp_session.c:314-315 | the callback never runs without its user data if and only if no thread can leave during the installation |
| ClosedCallback.LateReadsAreSighted | src/session/drd_rdp_session.c:592-607 | in every schedule where no thread reads the callback between its two stores, no call misses the user data |
| RoutingTokens.FindCrLf | src/transport/drd_rdp_routing_token.c:163-176 | the first CRLF, or -1 when there is none |
| RoutingTokens.GetRoutingTokenWithoutPrefix | src/transport/drd_rdp_routing_token.c:184-211 | the text between cookie prefix and CRLF up to a NUL, never with a negative length |
| RoutingTokens.PeekBytesIs | src/transport/drd_rdp_routing_token.c:110-152 | after any number of receive rounds the loop still runs if and only if no round broke off or offered enough bytes; otherwise the first such round decides |
| RoutingTokens.PeekFrom | src/transport/drd_rdp_routing_token.c:110-152 | the loop over the rounds ends as the specification says, and after as many rounds |
| RoutingTokens.ReadRequest | src/transport/drd_rdp_routing_token.c:270-335 | the stream parser computes the verdict on a whole request, its token and its RDSTLS bit, with every refusal |
| RoutingTokens.RoutingTokenPeek | src/transport/drd_rdp_routing_token.c:222-335 | two peeks, for the header and for the announced length, then the parser: for all rounds the answer of the specification |
| RoutingTokens.PiecesDoNotMatter | src/transport/drd_rdp_routing_token.c:222-335 | in whatever pieces the bytes arrive, the answer is the verdict on them, a failure only after a broken round, or none yet |
| RoutingTokens.WholeRequestEnds | src/transport/drd_rdp_routing_token.c:222-335 | an unbroken peek answers as soon as each of its two parts has seen all the client sends, if that is a whole request or a refused header |
| RoutingTokens.CrLfFound | src/transport/drd_rdp_routing_token.c:163-176 | the search result is a CRLF with none before it |
| RoutingTokens.FramedDecided | src/transport/drd_rdp_routing_token.c:278-299 | a well-formed request is decided by what follows its fixed part, whatever comes after the request |
| RoutingTokens.AcceptedIsFramed | src/transport/drd_rdp_routing_token.c:248-299 | every accepted request is a well-formed one, but for the reserved byte of the TPKT header |
| RoutingTokens.PrefixSpells | src/transport/drd_rdp_routing_token.c:195-196 | the cookie prefix is the text of the source |
| RoutingTokens.CookieAlone | src/transport/drd_rdp_routing_token.c:303-312 | a cookie with fewer than eight bytes behind it gives its token and no RDSTLS |
| RoutingTokens.CookieWithGarbage | src/transport/drd_rdp_routing_token.c:318-327 | a cookie with something other than a negotiation request behind it is refused |
| RoutingTokens.NoCookie | src/transport/drd_rdp_routing_token.c:198-207 | a request without a cookie line has no token and is accepted |
| RoutingTokens.RequestRoundTrip | src/transport/drd_rdp_routing_token.c:222-335 | a request built from any token without CRLF and NUL that fits and any protocols, whatever follows and in whatever pieces it arrives, is answered with exactly that token and RDSTLS bit, or not yet, or fails after a broken round |
| RoutingTokens.RdstlsRoundTrip | src/transport/drd_rdp_routing_token.c:222-335 | a request whose protocols are any low two bits, the RDSTLS bit and any higher bits is answered with its token and exactly that bit |
| RoutingTokens.AcceptedIsShort | src/transport/drd_rdp_routing_token.c:291-299 | every accepted request is complete, at most 260 bytes, and nothing behind it matters |
| RoutingTokens.PeekNeverEndsIff | src/transport/drd_rdp_routing_token.c:110-152 | every unbroken peek, however many rounds it takes, goes on for ever, if and only if the client stops short of a request that is not refused |
| RoutingTokens.ClosedAfterHeader | src/transport/drd_rdp_routing_token.c:110-152 | a peer that closes after the four bytes 3 0 0 19 keeps the peek going for any number of rounds |
| HandoverIds.TokenRoundTrip | src/system/drd_system_daemon.c:65-108 | a 32-bit token printed into an object path is read back; distinct tokens have distinct paths |
| HandoverIds.ParsedTokenPath | src/system/drd_system_daemon.c:440-491 | two valid token texts lead to the same path if and only if they have the same value; leading zeros change nothing |
| HandoverIds.TokenRange | src/system/drd_system_daemon.c:65-77 | the numbers that can be printed and read back are 1..4294967295 |
| HandoverIds.PathInFull | src/system/drd_system_daemon.c:76 | the path is the handover base path, a slash and the number |
| HandoverBroker.IdentityIsNew | src/system/drd_system_daemon.c:440-480 | a registering client gets an id that is not in use, and a token that leads back to it |
| HandoverBroker.SurvivorsAre | src/system/drd_system_daemon.c:244-270 | pruning keeps exactly the waiting clients that are not stale, each once |
| HandoverRuns.SurvivorsKeepOrder | src/system/drd_system_daemon.c:244-270 | pruning keeps the order of the rest |
| HandoverRuns.PruneRemovesTheStale | src/system/drd_system_daemon.c:244-270 | pruning removes from table and queue exactly the unassigned waiting clients idle for 30 s with a positive timestamp |
| HandoverRuns.EnqueueOrDropIsGood | src/system/drd_system_daemon.c:338-413 | a client sent to the queue is its last element if fewer than 32 fresh ones wait, else leaves the table; the others only expire |
| HandoverRuns.RunInv | src/system/drd_system_daemon.c:338-1343 | the broker invariant holds after every conforming run |
| HandoverRuns.TableAndQueueAgree | src/system/drd_system_daemon.c:338-1343 | in every conforming run nobody waits twice, at most 32 wait, and those waiting are exactly the unassigned clients of the table, each under its own id |
| HandoverRuns.DispatchedAtMostTwice | src/system/drd_system_daemon.c:1318-1340 | no client is handed out more than twice in its life |
| HandoverRuns.LongestWaitingFirst | src/system/drd_system_daemon.c:733-764 | a request returns the client that joined the queue first among those not stale, or reports none exactly when all are |
| HandoverRuns.OwnTokenFinds | src/system/drd_system_daemon.c:306-330 | in every conforming run a tracked client is found by its own token |
| HandoverRuns.NeverOverwritten | src/system/drd_system_daemon.c:421-537 | no step changes a tracked client's token or takes back its hand-overs, newcomers enter under unused ids, and no client held after its first hand-over is dropped; that records are not exchanged is SameObjects in the daemon's methods |
| HandoverRuns.ServedStaysForever | src/system/drd_system_daemon.c:1318-1340 | a client held after its first hand-over stays in the table for the rest of every run and never waits again |
| HandoverRuns.HandedOverTwiceIsKept | src/system/drd_system_daemon.c:1323-1327 | in every run a client with two hand-overs is such a client |
| HandoverLives.NeverLeavesIffKept | src/system/drd_system_daemon.c:1318-1340 | a tracked client stays in the table in every continuation from any time on in which the clock does not run backwards, if and only if it is held after its first hand-over |
| HandoverLives.TwoStagesEndKept | src/system/drd_system_daemon.c:546-602 | for every first connection the ordinary two-stage hand-over is a conforming run and ends with such a client |
| HandoverRuns.RefusedLeavesNoTrace | src/system/drd_system_daemon.c:521-527 | a new client is refused exactly when 32 fresh ones wait, and then only the pruning remains |
| HandoverRuns.RemoteIdMatchesIff | src/system/drd_system_daemon.c:482-495 | the number a newly registered connection carries leads to the client's own object if and only if the token it sent does not belong to a client in session |
| HandoverAnswers.StartReplies | src/system/drd_system_daemon.c:1188-1272 | in every conforming run each ending of StartHandover, by what the client had and is left with: redirected locally if and only if its session ends, signalled if and only if there was TLS material and no session, and the errors change nothing but the timestamp |
| HandoverAnswers.TakeReplies | src/system/drd_system_daemon.c:1274-1343 | in every conforming run a client is taken if and only if it has a connection that can be passed on, which is used up; the first time it waits again or leaves, later it stays assigned |
| HandoverAnswers.ConnectReplies | src/system/drd_system_daemon.c:546-602 | in every conforming run the three treatments of a connection: given to the client its token names if that has no session, a new record with the connection's own wishes at the end of the queue, or dropped at 32 with only the pruning left |
| HandoverAnswers.RequestMeans | src/system/drd_system_daemon.c:733-764 | the client answered with is assigned, stamped and off the queue, and everybody else is only pruned |
| HandoverAnswers.ReadyMeans | src/system/drd_system_daemon.c:612-706 | a session is remembered for its client and no other |
| HandoverAnswers.FreeTokenIsKept | src/system/drd_system_daemon.c:440-495 | a valid token that is not in use is kept as it was sent, and so is its number |
| HandoverLives.MismatchIsReachable | src/system/drd_system_daemon.c:482-495 | for every valid token, connecting with it, starting the session and connecting with it again is a conforming run that gives the new client a number that is not its own |
| SystemDaemons.SystemDaemon.GenerateRemoteIdentity | src/system/drd_system_daemon.c:116-159 | drawing finds an identity if and only if some draw is non-zero and unused, and yields such an identity and its token |
| SystemDaemons.SystemDaemon.FindClientByToken | src/system/drd_system_daemon.c:306-330 | the record under the token's path, or none |
| SystemDaemons.SystemDaemon.PruneStalePendingClients | src/system/drd_system_daemon.c:244-270 | the loop that removes while it walks computes the pruned table and queue |
| SystemDaemons.SystemDaemon.QueueClient | src/system/drd_system_daemon.c:338-365 | refines queueing: prune, refuse at 32, append and stamp |
| SystemDaemons.SystemDaemon.Unqueue | src/system/drd_system_daemon.c:373-384 | takes exactly this client out of the queue |
| SystemDaemons.SystemDaemon.RemoveClient | src/system/drd_system_daemon.c:392-413 | takes the client out of queue and table |
| SystemDaemons.SystemDaemon.RegisterClient | src/system/drd_system_daemon.c:421-537 | refines registration with its identity, its record and its refusal; no tracked record is exchanged |
| SystemDaemons.SystemDaemon.Delegate | src/system/drd_system_daemon.c:546-602 | refines the treatment of a new connection: failed peek, returning client, new client; no tracked record is exchanged |
| SystemDaemons.SystemDaemon.OnSessionReady | src/system/drd_system_daemon.c:612-706 | the session is remembered and the client touched |
| SystemDaemons.SystemDaemon.HandleRequestHandover | src/system/drd_system_daemon.c:733-764 | refines the request: prune, pop the head, assign it |
| SystemDaemons.SystemDaemon.OnStartHandover | src/system/drd_system_daemon.c:1188-1272 | refines the start of a handover with its four endings |
| SystemDaemons.SystemDaemon.OnTakeClient | src/system/drd_system_daemon.c:1274-1343 | refines taking a client: refusal, first hand-over with requeueing or removal, later ones |
| SystemDaemons.SystemDaemon.Stop | src/system/drd_system_daemon.c:873-896 | table and queue are empty |

## Left out

- EncoderRuns.ClientMirrorsServer: says "same hash" rather than "same pixels" for a tile, because a 64-bit hash can collide; it excludes collisions only for differences within one chunk, and `ClientShowsFrame` names a colliding tile otherwise.
- EncodingManagers.EncodingManager.EncodeAvcFrame: a failed AVC send is taken as not applied by the client; the code forces no keyframe there (src/encoding/drd_encoding_manager.c:1367-1372 and 1443-1448).
- EncoderRuns.StaysLossyIff: takes hardware preparation to succeed always or never for a connection, and a cached refresh to be asked for only when it is due; one asked for by a timer that fired just before an AVC frame is not considered.
- EncodingManagers.EncodingManager.CollectDirtyTiles: one list of rectangles stands for both outputs; the progressive region is the union of those rectangles.
- EncodingManagers.EncodingManager.SelectCodec: hardware preparation is a yes/no oracle, and the hardware path and its software fallback inside one AVC encode are one outcome.
- EncodingManagers.EncodingManager.UpdateTileHashes: the growable byte and hash arrays are sequence fields that methods reassign; aliasing of frame buffers is not modelled, and scalars set together are records.
- EncodingManagers.EncodingManager.Prepare: H264 bitrate, frame rate and quantiser are passed through to the codec and not modelled.
- EncodingManagers.EncodingManager.AnalyzeTiles: compares the exact quotient of two counts with a real threshold; the source divides doubles, so a quotient that rounds across the threshold, and a NaN threshold, are not modelled.
- Backpressure.FramesInFlightBounded: promises the limit itself only to clients that are silent while suspended and send no ack a suspension forgave; `FlightWithinIff` has the exact excess.
- Backpressure.CreditBound: counts only frames with data against the acks; frames without data are tracked separately and lead to `PhantomFramesDeadlock`.
- RoutingTokens.RoutingTokenPeek: a signal that interrupts a system call is a round in which nothing has arrived; the poll's two-second timeout only starts another round.
- SystemDaemons.SystemDaemon.GenerateRemoteIdentity: that the loop ends with a random source is not proved; registration, where it needs an identity, is modelled for draws that contain a free one.
- SystemDaemons.SystemDaemon.OnTakeClient: requires that the client is not waiting, which holds for daemons that request a client before they take it; calls without a request are outside the model.
- HandoverRuns.RunInv: covers daemons that call StartHandover and TakeClient only on clients handed to them by RequestHandover.
- SystemDaemons.SystemDaemon.RemoveClient: a removed record is dropped; releasing its session and its memory is not modelled.
- ClosedCallback.NeverTwice: one installation of a callback; removing it again clears the memory of a call (src/session/drd_rdp_session.c:317-321), so a second installation may call again. Shared accesses are sequentially consistent.
- CapturePacing.CaptureLoop: only the deadline arithmetic; damage seen before the deadline is forgotten by the code, so no claim is made that every damage is captured.
- Deadlines of waits and the passage of time inside them: a wait is told whether it was notified or timed out.
- The 32-bit width of the outstanding-frame counter: it stays within the limit without H264; with H264 every frame sent adds one until an ack clears it, and overflow is not modelled.
- Codec bitstreams, FreeRDP channel set-up, capability negotiation and timestamps.
- Termination of stop and disconnect, thread joins and reference counts.
- The transport switch: its compare-and-swap loop and the runtime's configuration fields.
- The surface-bits path, which reports that it is not implemented.
- D-Bus export of objects, LightDM displays, PAM, TLS material and system credentials: calls into other services.
- Input injection, the key-code cache, configuration parsing, logging and statistics.
- The `qt/` port, which is a set of stubs.
