# Verified model of the virtual desktop's screen-update pipeline

A host captures its screen, finds what changed, cuts and packs it into frames or frame
parts, and sends them over a versioned, numbered record stream; a client reassembles them
in two swapped buffers and shows the result. This project models that pipeline from the
captured image to the shown pixels, with the establishment of the session before it and the
input that travels back, and proves that the client follows the host.

## How it is laid out

Code that changes things step by step is modelled as classes and methods over real arrays
and fields (`Framebuffer`, `Detector`, `Service`, `InputState`, `Peer`, the `Encoder` and
`Decoder` of `Records`, `Packer.SplitFrame`, `Validation.ValidateMessage`,
`Downscale.DownscaleImage`). Each such method is proved equal to a specification function,
and the theorems are about those functions and about runs of them. Layout, Verdicts, Transitions,
Runs, Averaging, Captures, Reactions, InputSent, Gate and Replies say what those functions come to
without naming them: by offset, by pixel, by the protocol's figures and by what happened before.

| files | what they hold |
|---|---|
| Types, Geometry, Raster | values; rectangles, overlap, the counting argument; byte addressing, crop and blit |
| Messages, Wire, Codec, Records, Layout | the sixteen messages and limits; printer; parser; the record layer; every byte of it by offset |
| Validation, Verdicts, Packer | message validation; its verdicts in the protocol's figures; the order-preserving packer of frame parts |
| ClientState, ClientRuns, Transitions, Framebuffer | the reassembler as a state machine; its runs; what each event does, pixel by pixel; the class with its two buffers |
| Reassembly | splitting and reassembling against applying whole |
| Tiling, Runs, Damage, Detector, Fnv | tiles, runs, merging, bands; which rectangles come out; one comparison; the class with its memory; the hash it uses |
| Downscale, Averaging, Pointer | the v1 reduction; what it averages; the pointer mapping back |
| Host, Captures, Service, HostInput, Reactions | the host loop's steps; what a capture becomes; the class; runs of captures and received input; what input does |
| Replica, System, WireBounds | one capture on host and client together; whole runs; why the shipped defaults never fail |
| Recovery, Delivery, Collision | catching up after a missed frame; runs carried over bytes; what a hash collision does |
| ClientInput, InputSent, InputState | the client's input bookkeeping; what it sends; the class |
| Handshake, Session, Gate, Establishment, Peer | one endpoint; both scripts; what gets through when; the two joined by byte streams; the classes |
| Link, Replies, LinkInput, LinkBooks, LinkScreen, LinkStale | host and client joined by two queues, captures in stages; what each answers; input refused, conserved; the screen; a session that ends |
| Wired, FirstImage | the joined session over both byte streams, from AUTH on; a run of it that shows an image |

## Main results

1. `System.ClientFollowsHost`: over any run of captures, heartbeats and client messages with
   no host error the client rejects nothing and ends with the last capture's geometry, every
   tile hashing as the host's. `Replica.CaptureExactness` says when the bytes agree too: after
   a capture, if and only if it went out as a keyframe or no tile changed without its hash
   changing; `System.ClientEqualsHost` carries that over runs, counting from the last keyframe.
   `WireBounds.DefaultRunsNeverFail` removes the proviso about host errors under the shipped
   defaults, `Delivery.PixelsThroughBytes` puts the encoder, the byte stream and the decoder
   in between, and `Recovery.RequestResyncs` covers a client that missed a frame.
2. `Reassembly.SplitRefinesWhole`: parts fed in order commit exactly once, on the last, and
   leave what applying the whole frame would. `Transitions.FrameExactly` says which pixels that is
   and which frames are refused, and why.
3. `ClientRuns.LeftoversAreNeverShown` with `Geometry.CoverageByCounting`: the spare buffer
   is never cleared, and no run can tell what it held, because a keyframe is accepted only
   when its counted area is the whole display.
4. `Packer.GreedyIsOptimal`, `Packer.SplitVerdicts`, `Packer.NextFitBound`: the packer uses
   the fewest parts any order-preserving packing could, and its errors are exact.
5. `Codec.UnmarshalOfMarshal` and `Codec.MarshalOfUnmarshal`: a bijection between valid
   messages and accepted payloads, for all sixteen types. `Records.StreamRoundTrip` and
   `Records.DisplacedRecordStopsStream` lift it to streams. `Layout.PayloadExactly` and
   `Layout.DecodeExactly` fix every byte of it, and `Verdicts.ControlExactly` which messages it
   carries.
6. `Establishment.HonestEndsRefuseNothing` and `Establishment.BothEndsPinned`: in every
   interleaving over byte streams nothing that arrives is refused, and both ends are pinned
   to one version. `Handshake.EstablishedInOrder` and `Session.ServingHostIsAuthenticated`
   hold against any remote end at all.
7. `ClientInput.RunTracks`: over whole connections and any pattern of send failures the
   client's books match what it told the host at every moment, if and only if nothing is held
   whenever Connect is called. `HostInput.AtMostTwiceTheLimit`, `HostInput.AcceptedMovesForward`
   and `Reactions.EventExactly`: what the host accepts over runs of captures and input, and that
   it injects just what was meant. `InputSent.ReleaseExactly` lists every release a client sends.
8. `Link` joins both ends by two queues and runs every thread one locked section at a time.
   `Link.CaptureIsAtomic`: whatever falls between the stages of a capture, it sends and leaves
   what it would in one piece. `LinkScreen.ScreenFollows` is the replica theorem in every such
   interleaving; `LinkInput.RefusedExactly` says when an honest client's input is refused;
   `LinkBooks.HostHoldsWhatClientHolds` ties what the host was told is down to the client's books.
9. `Wired.FromAuthToPixels`: the same joined session carried by both byte streams, from the
   first AUTH byte to the shown tiles. `Wired.BytesCarrySession` says that what either end decodes
   next is what the other handed over next, and `FirstImage.FirstImageShown` is such a run.

## Assumptions

- The compressor and the tile hash are parameters: any compressor that decompresses to what
  it was given and never yields nothing, and any hash function at all. The compressed format
  is that of section 2.2 of RFC 1950 and is not modelled. The hash in use, 64-bit FNV-1a
  (internal/damage/damage.go:271-278), is `Fnv.Hash`, for the first finding; there the
  compressor is a stand-in that prefixes a byte.

## Findings

Where the code falls short of what its documentation or a reader would expect, the model keeps
the code.

- A tile whose hash is unchanged is taken as clean without comparing bytes
  (internal/damage/damage.go:213-215). `Collision.ChangedPixelsStay` is a session under the code's
  own hash, FNV-1a, in which five pixels change, nothing fails, and the client goes on showing
  the old ones; `Fnv.OneHash` holds their bytes. `Collision.UnseenExactly` says exactly which
  captures go unseen, and `Replica.CaptureExactness` what that does to the client.
- A key or button pressed after the first DISPLAY_CONFIG has been applied and before Connect is
  called goes out on the live session, because a new input state counts as connected
  (internal/client/input.go:25-27) although a comment says it does not
  (internal/client/session.go:253-258); Connect then forgets it, and its Up is never sent.
  `ClientInput.EarlyKeyIsLost` shows it, `ClientInput.RunTracks` gives the exact condition, and
  `ClientInput.LaterConnectionsAreClean` confines it to a first connection. Before the
  DISPLAY_CONFIG the peer's state check does stop such input.
- Version negotiation refuses two windows whose highest common version is above 2 even where a
  lower common version would do: `Handshake.SpokenVersionRefused`, with the exact condition in
  `Handshake.NegotiatedIsHighestCommon`. The shipped host cannot run into it, as it admits
  only 1 or 2 as its own maximum (cmd/vdhost/main.go:308-317).
- A tile size so close to 2^32 that adding an image dimension wraps leaves that image without
  any tile, and no change of it is ever seen: `Damage.WrappedSeesNothing`; when the count wraps is
  `Tiling.TileCountUnlessWrapped`. For every tile size an unforced capture goes unseen if and
  only if the count wraps or every tile hashes as before: `Collision.UnseenExactly`. The shipped
  tile size is 64.
- A change of geometry ends the session of a client that does nothing wrong. Input stamped with
  the old generation that arrives after the host stored the new one is refused
  (internal/host/service.go:341-353, 544-547), and a refusal ends the session
  (internal/host/service.go:431-444). `LinkStale.StaleKeyEndsSession` shows it for every change of
  geometry under the shipped v1 limits, `LinkStale.OnePixelWiderEndsSession` on a display that
  grows by a pixel. By `LinkInput.RefusedExactly`, with input enabled and equal limits, this is the only way but for
  its mirror image: an event of a geometry already sent and not yet stored. With one geometry it
  cannot happen (`LinkInput.SteadyGeometryNeverRefuses`).

## Model

| member | source | states |
|---|---|---|
| Geometry.OverlapIsSharedPixel | internal/protocol/validate.go:17-19 | the overlap test holds exactly when the two non-empty rectangles share a pixel |
| Geometry.AreaWithinDisplay | internal/client/framebuffer.go:403-426 | disjoint rectangles inside the display never count more area than the display has |
| Geometry.CoverageByCounting | internal/client/framebuffer.go:206-220 | disjoint in-display rectangles cover every pixel if and only if their areas add up to the display's area |
| Geometry.SamePixelsSameArea | internal/damage/damage.go:162-166 | two disjoint lists over the same pixels have the same total area |
| Raster.BlitOfCrop | internal/damage/damage.go:291-305 | a rectangle cropped out of an image holds exactly that image's bytes at the positions blitting puts them back to |
| Raster.EqualCrops | internal/damage/damage.go:280-289 | two crops are equal exactly when the images agree on every byte of the rectangle |
| Raster.CropRow | internal/damage/damage.go:291-297 | each row of a crop is the contiguous slice of the image that the row loops address, in bounds |
| Raster.RowSpan | internal/client/framebuffer.go:469-476 | the byte span a row copy writes is exactly the bytes of that row of the rectangle, and no write leaves the buffer |
| Validation.ListErrorMeaning | internal/protocol/validate.go:44-69 | the scan passes exactly when each rectangle is well formed and no two overlap, from any starting point |
| Validation.ValidListAccepted | internal/protocol/validate.go:44-69 | a rectangle list passes exactly when it is valid in declarative form |
| Validation.ValidateRectangles | internal/protocol/validate.go:44-69 | the nested scan reports the first error in scanning order, or none |
| Validation.RectListPayloadSize | internal/protocol/codec.go:210-222 | the 64-bit arithmetic size is the true size, saturating where it would wrap |
| Validation.ValidateMessage | internal/protocol/validate.go:84-206 | the verdict on every message type, pixel sizes checked by arithmetic and the others by marshaling |
| Validation.FrameAccepted | internal/protocol/validate.go:118-124 | a FRAME is accepted exactly when header, rectangle count, list and marshaled size are all within the limits |
| Validation.PartAccepted | internal/protocol/validate.go:125-137 | a FRAME_PART is accepted exactly when header, indices, rectangle count, list and marshaled size are all within the limits |
| Verdicts.TextExactly | internal/protocol/validate.go:165-172 | the octets accepted as text are the encodings of sequences of Unicode scalar values, as section 3 of RFC 3629 lays them out, and no others |
| Verdicts.LimitsExactly | internal/protocol/types.go:263-280 | each limit is kept when it is between 1 and its hard cap and is the cap otherwise, with every cap in figures |
| Verdicts.ClicksExactly | internal/protocol/validate.go:73-82 | the wheel check accepts whole clicks of 120, between one and twenty over both axes together |
| Verdicts.ControlExactly | internal/protocol/validate.go:84-206 | for each of the fourteen messages without pixels which of its fields are in range, in figures, and which of the three refusals it otherwise meets |
| Verdicts.FrameExactly | internal/protocol/validate.go:118-124 | a FRAME is malformed, too large or accepted according to its header, its count, its first unsound rectangle, any shared pixel and its size, in that order |
| Verdicts.PartExactly | internal/protocol/validate.go:125-137 | likewise a FRAME_PART, whose place among at least two parts is checked after its header |
| Wire.ArithmeticSizeIsExact | internal/protocol/codec.go:195-222 | the size computed without marshaling equals the marshaled length, for frames and parts |
| Packer.GreedyStaysAhead | internal/protocol/frame_part.go:74-104 | after the same number of groups, first-come packing has placed at least as many rectangles as any other order-preserving packing |
| Packer.GreedyIsOptimal | internal/protocol/frame_part.go:74-104 | a packing within budget exists exactly when the greedy one does, and none has fewer parts |
| Packer.NextFitBound | internal/protocol/frame_part.go:74-104 | with k parts, floor(k/2) full budgets are less than the summed rectangle sizes |
| Packer.SplitFrame | internal/protocol/frame_part.go:47-110 | the packing loop with its flush and its stamping computes the specified parts or the specified error |
| Packer.SplitIsMinimalPacking | internal/protocol/frame_part.go:47-110 | a successful split is at least two stamped parts within the cap, concatenates to the original list, each part fits, and no other packing is shorter |
| Packer.SplitVerdicts | internal/protocol/frame_part.go:47-110 | a split is refused exactly when no packing within budget and part cap exists; one message suffices exactly when the frame is reported as fitting |
| Packer.TooLargeExactly | internal/protocol/frame_part.go:74-110 | a part is too large if and only if some rectangle fits no part while those before it fit fewer parts than the cap; a frame is too large if and only if that is not so and no packing within the cap exists |
| ClientState.StepKeepsInvariant | internal/client/framebuffer.go:112-261 | every step keeps the state valid; one that errs or does not commit leaves pixels, sequence and geometry alone; a commit or reconfiguration is strictly later |
| ClientState.PartStepKeepsInvariant | internal/client/framebuffer.go:242-454 | the same for parts: staging and draining exclude each other, and placed rectangles stay disjoint, in bounds and within the rectangle limit |
| ClientRuns.RunNeverGoesBack | internal/client/framebuffer.go:94-261 | over any run the shown pixels are unchanged or replaced by something strictly later in (generation, sequence) |
| ClientRuns.FullCoverageAgrees | internal/client/framebuffer.go:403-441 | two buffers agreeing on disjoint rectangles whose areas add up to the display are equal |
| ClientRuns.StepAgrees | internal/client/framebuffer.go:160-454 | a step from two states that differ only in bytes of the spare buffer no placed rectangle wrote gives the same outcome and again such states |
| ClientRuns.LeftoversAreNeverShown | internal/client/framebuffer.go:72-90 | no run of frames, parts, rejections and reconfigurations ever shows a stale byte of the uncleared spare buffer |
| Framebuffer.BlitRectangle | internal/client/framebuffer.go:469-476 | the row-by-row copy puts the decoded bytes on the rectangle's pixels and changes nothing else |
| Framebuffer.DecodeRectangle | internal/client/framebuffer.go:478-502 | raw bytes or decompressed bytes of the right length, and an error otherwise |
| Framebuffer.Framebuffer.Reset | internal/client/framebuffer.go:100-110 | back to the blank state with fresh buffers |
| Framebuffer.Framebuffer.Configure | internal/client/framebuffer.go:112-140 | stale or invalid configurations change nothing; a new one brings two fresh, distinct buffers and drops any staging |
| Framebuffer.Framebuffer.Apply | internal/client/framebuffer.go:160-224 | a frame is drawn in the spare buffer and swapped in only when accepted; an error leaves what is shown |
| Framebuffer.Framebuffer.ApplyPart | internal/client/framebuffer.go:242-261 | the three-mode reassembler over the two real buffers does exactly the specified step |
| Framebuffer.Framebuffer.StartStaging | internal/client/framebuffer.go:267-311 | part zero starts staging in the spare buffer, or begins a drain, or is refused |
| Framebuffer.Framebuffer.ContinueStaging | internal/client/framebuffer.go:315-326 | a later part must match the staged header and come next |
| Framebuffer.Framebuffer.ApplyPartRectangles | internal/client/framebuffer.go:395-426 | rectangles are checked against the limit, the display and every rectangle placed so far, then drawn |
| Framebuffer.Framebuffer.CommitStaging | internal/client/framebuffer.go:431-441 | a keyframe commits only with full coverage; committing swaps the buffers |
| Framebuffer.Framebuffer.DrainDiscard | internal/client/framebuffer.go:358-393 | the rest of an unknown-base frame is checked and consumed without a pixel changing |
| Transitions.DrawExactly | internal/client/framebuffer.go:403-426 | drawing stops at the first rectangle that leaves the display, shares a pixel with one already placed or cannot be decoded, names that fault, and by then every covered pixel holds what its rectangle puts there and every other byte is the old one |
| Transitions.ConfigureExactly | internal/client/framebuffer.go:112-140 | a valid configuration of a later generation brings an all-zero display of its size that waits for a keyframe, a size cap that never fires aside; anything else changes nothing |
| Transitions.FrameExactly | internal/client/framebuffer.go:160-224 | each refusal of a FRAME in order and without effect; a drawn one is rejected at its first fault, or as a keyframe that leaves a pixel uncovered, and otherwise shown pixel by pixel with the old display left as the spare buffer |
| Transitions.PartRefused | internal/client/framebuffer.go:242-381 | each refusal of a FRAME_PART in order, without effect but for a restart, which drops what was staged, and an unknown base, which begins the drain |
| Transitions.PartExactly | internal/client/framebuffer.go:395-441 | a part that is next in its frame is drawn over what was staged; the last one commits the frame, a keyframe only if every pixel is covered |
| Transitions.DrainedExactly | internal/client/framebuffer.go:358-393 | a drained part is held to the same places as a drawn one, and the last ends the drain |
| Transitions.RestartAbandonsFrame | internal/client/framebuffer.go:267-273 | after a part zero in the middle of a frame nothing is staged, and none of the parts that follow commits or changes anything |
| Reassembly.DrawFrameConcat | internal/client/framebuffer.go:206-217 | drawing a concatenation is drawing one list after the other, errors included |
| Reassembly.DrawPartIsDrawFrame | internal/client/framebuffer.go:403-426 | on disjoint rectangles the part's drawing loop and the frame's do the same |
| Reassembly.PartOfSplitAccepted | internal/protocol/frame_part.go:47-110 | every part of a split passes validation and stays disjoint from the parts before it |
| Reassembly.SplitRefinesWhole | internal/client/framebuffer.go:267-326 | the parts of a split commit exactly once, on the last part, with the state the whole frame would give, and never commit when the whole frame would be refused |
| Reassembly.OutOfOrderNeverCommits | internal/client/framebuffer.go:242-326 | parts that are never part zero and never the one expected next, earlier or later, commit nothing |
| Reassembly.RefusedSplit | internal/client/framebuffer.go:267-294 | a split frame whose header is stale or on an unknown base commits nothing |
| Reassembly.UnknownBaseIsDrained | internal/client/framebuffer.go:334-393 | a delta on an unknown base asks for a keyframe exactly at part zero, its tail parts are consumed, and the framebuffer is exactly as before, idle |
| Tiling.RunsPixels | internal/damage/damage.go:222-245 | the runs of a row cover exactly its dirty tiles |
| Tiling.RunsDisjoint | internal/damage/damage.go:222-245 | all runs of all rows are disjoint and inside the image |
| Tiling.MergeKeeps | internal/damage/damage.go:246-257 | folding runs downwards keeps disjointness, bounds and covered pixels |
| Tiling.DamageRectsExact | internal/damage/damage.go:201-258 | the damage rectangles are disjoint, in bounds, and cover a pixel exactly when its tile is dirty |
| Tiling.DamageAreaIsDirtyPixels | internal/damage/damage.go:201-258 | the dirty-pixel count that decides on a keyframe is the area of the damage rectangles |
| Tiling.BandsExact | internal/damage/damage.go:337-369 | banding a rectangle gives disjoint in-bounds bands over exactly its pixels |
| Tiling.BandAllExact | internal/damage/damage.go:319-330 | banding any damage keeps it disjoint, in bounds and over the same pixels |
| Runs.RunsInOrder | internal/damage/damage.go:222-245 | the runs collected are those of dirty tiles between clean neighbours, clipped to the image, in reading order |
| Runs.DamageExactly | internal/damage/damage.go:222-257 | the damage rectangles are the longest columns of consecutive runs that continue one another, one rectangle for each |
| Runs.BandRowsExactly | internal/damage/damage.go:357-369 | the most whole rows that fit the budget, at least one |
| Runs.BandsExactly | internal/damage/damage.go:337-351 | a rectangle that fits stays whole, any other is cut from the top into bands of the most rows that fit and a last one of what is left |
| Tiling.TileCountUnlessWrapped | internal/damage/damage.go:201-206 | the tile count computed in 32 bits is the true one exactly when its sum does not wrap, and zero otherwise |
| Damage.NormalizeIsOk | internal/damage/damage.go:70-113 | every configuration normalizes to one whose rectangle budget leaves room for a frame's own bytes when the wire has any |
| Damage.CompareKeepsMemory | internal/damage/damage.go:138-186 | whatever a comparison decides, the remembered image and hashes stay consistent |
| Damage.WrappedSeesNothing | internal/damage/damage.go:201-258 | where the tile count wraps, an unforced capture of the remembered geometry always counts as unchanged |
| Captures.NormalizeExactly | internal/damage/damage.go:88-113 | every default and every clamp of the detector in figures |
| Captures.EncodeExactly | internal/damage/damage.go:291-305 | a rectangle travels in the shorter of its two forms, raw on a tie |
| Captures.CompareExactly | internal/damage/damage.go:138-186 | the generation, sequence and base a frame carries and what is remembered in each outcome, numbers used up by a keyframe that does not fit included |
| Captures.FrameHoldsBands | internal/damage/damage.go:307-330 | a keyframe holds the bands of the whole image and a delta those of the damage, each encoded, in order |
| Detector.HashRect | internal/damage/damage.go:271-278 | hashing row by row is hashing the crop |
| Detector.EqualRect | internal/damage/damage.go:280-289 | the row comparison answers whether the two crops are equal |
| Detector.EncodeRectangle | internal/damage/damage.go:291-305 | the crop, raw or compressed, whichever is shorter |
| Detector.CollectRuns | internal/damage/damage.go:222-245 | the scanning loop collects the maximal dirty runs in row-major order |
| Detector.MergeRuns | internal/damage/damage.go:246-257 | the in-place merge loop folds each run into the one before it when it continues it |
| Detector.EncodeRectBanded | internal/damage/damage.go:337-351 | a rectangle over the budget is encoded band by band |
| Detector.Detector.constructor | internal/damage/damage.go:122-136 | a new detector has the normalized configuration and no memory, for every tile size |
| Detector.Detector.Create | internal/damage/damage.go:130-136 | a pixel budget too small for one pixel is refused |
| Detector.Detector.ChangedRectangles | internal/damage/damage.go:201-258 | the scan yields the damage rectangles, the dirty-pixel count and the new hashes, and nothing at all where the 32-bit tile count wraps |
| Detector.Detector.EncodeRects | internal/damage/damage.go:319-330 | all bands encoded, or overflow as soon as the rectangle limit is passed |
| Detector.Detector.RememberAndHash | internal/damage/damage.go:371-386 | the image is kept with the hash of every tile, or with none where the 32-bit tile count wraps |
| Detector.Detector.Compare | internal/damage/damage.go:138-186 | nothing, a delta, a keyframe or an error exactly as specified, with the sequence and generation already moved when it errs |
| Downscale.DownscaleFactor | internal/host/downscale.go:10-24 | the loop finds the specified factor for any dimensions and budget |
| Downscale.FactorIsSmallestFitting | internal/host/downscale.go:10-24 | for all 32-bit dimensions and every budget the factor is the smallest whose output exists and fits, and where none fits the last whose output exists |
| Downscale.RowBudgetFits | internal/host/downscale.go:10-24 | with a budget of at least one row of the widest display the chosen factor always fits |
| Averaging.ShiftIsQuotient | internal/host/downscale.go:10-24 | a shifted dimension is the quotient by the power of two |
| Averaging.OneByteCounts | internal/host/downscale.go:44-56 | replacing any one byte of a capture changes a block's sum by the difference if the byte is in the block and of its channel, and by nothing otherwise |
| Averaging.BlackBlock | internal/host/downscale.go:44-56 | a block of zeros sums to zero, so that with the last row the sum is over the block and nothing else |
| Averaging.ReducedExactly | internal/host/downscale.go:26-62 | each output byte is its block's sum over its area rounded to the nearest, halves up, and the block starts 2^k times as far from the corner |
| Averaging.NothingToReduce | internal/host/downscale.go:31-38 | with no factor, or a dimension below one block, the capture itself is passed on |
| Downscale.AverageWithinBlock | internal/host/downscale.go:44-56 | a rounded block average lies between the block's smallest and largest byte |
| Downscale.DownscaledWithinBlock | internal/host/downscale.go:31-62 | each output byte lies between the extremes of the source block it stands for, and that block exists |
| Downscale.DownscaleImage | internal/host/downscale.go:31-62 | the nested loops compute the box average of every block, for every image whose bytes reach as far as the loops read |
| Pointer.RemapIsNearest | internal/host/downscale.go:75-88 | the result is in range, within half a step of the exact linear map and above it on a tie, and the final clamp never fires |
| Pointer.RemapKeepsEndpoints | internal/host/downscale.go:75-88 | first maps to first, last and beyond to last |
| Pointer.RemapIsMonotone | internal/host/downscale.go:75-88 | order is kept, and distinct positions stay distinct when nothing was scaled down |
| Pointer.RemapIsIdentity | internal/host/downscale.go:75-88 | equal dimensions change nothing |
| Reactions.NearestIsUnique | internal/host/downscale.go:75-88 | only one native position is within half a step of the exact one, ties upwards |
| Reactions.NearestKeepsEnds | internal/host/downscale.go:75-88 | it is the end for an end and the position itself between equal sizes |
| Host.ConfiguredIsOk | internal/host/service.go:119-187 | every configuration of the service normalizes to consistent limits, damage settings and input rate |
| Captures.ConfiguredExactly | internal/host/service.go:119-187 | every default and clamp of the service in figures |
| Captures.PrepareExactly | internal/host/service.go:371-380 | v2 captures go through as they are, v1 ones at the smallest reduction that fits the budget |
| Captures.PlanExactly | internal/host/service.go:399-412 | whole on v1 or within one part; otherwise in the fewest parts any packing has, numbered in order under the frame's header, or refused exactly when no packing within the cap exists |
| Captures.SendAllExactly | internal/host/service.go:416-429 | what goes out is everything before the first refused message, whose reason is returned |
| Captures.CaptureExactly | internal/host/service.go:300-361 | in each outcome of a capture which messages go out, announced how, and what becomes of the request, the generation, the dimensions and the input numbers |
| Service.Service.PrepareCapture | internal/host/service.go:371-380 | v1 captures are reduced to what one frame carries, v2 captures and v1 captures within budget untouched whatever their length |
| Service.Service.MakePlan | internal/host/service.go:399-412 | whole on v1 and when it fits, parts when it must split, refused before anything is announced |
| Service.Service.SendPlan | internal/host/service.go:416-429 | messages go out in order and stop at the first refused one |
| Service.Service.SendCapture | internal/host/service.go:300-361 | one capture from raw image to messages and new service state |
| Service.Service.HandleInput | internal/host/service.go:505-597 | the reaction to each message and the new service state |
| HostInput.StepStaysLimited | internal/host/service.go:549-575 | every event keeps the accepted times within the limiter's windows |
| HostInput.AtMostTwiceTheLimit | internal/host/service.go:549-575 | over any run of captures and messages no interval shorter than a second holds more than twice the limit of accepted events |
| HostInput.NothingUncounted | internal/host/service.go:540-575 | over such a run accepted plus dropped is exactly what passed the header check |
| HostInput.AcceptedMovesForward | internal/host/service.go:544-575 | over such a run accepted events strictly increase in generation and, within one, in sequence |
| HostInput.MovesStayInside | internal/host/service.go:577-587 | after any such run an injected move lies inside the native capture taken last |
| HostInput.CaptureAndInput | internal/host/service.go:300-356 | a capture leaves the limiter alone, keeps the generation or starts a later one with nothing accepted, and sets the native dimensions |
| HostInput.InputGetsThrough | internal/host/service.go:505-597 | under the shipped limits the first pointer event after any legal capture is accepted and injected |
| Reactions.HandledExactly | internal/host/service.go:505-597 | for every state, message, time and setup: a request is noted, a PING answered with its own nonce, an event refused, dropped or injected as what it says, each exactly when, and nothing else changes |
| Reactions.LetInExactly | internal/host/service.go:536-547 | after any run a valid event is let in if and only if input is enabled, it is of the generation announced last and its number is beyond every one accepted in it |
| Reactions.EventExactly | internal/host/service.go:577-597 | after any run an accepted key, button, wheel or focus event is injected with its own fields, and a move at the native position nearest to where it points in the announced display, on v2 at the very position it names |
| Reactions.DroppedMeansFull | internal/host/service.go:549-568 | after any run an event is dropped only when a full second's worth of events was accepted within the last second |
| Replica.DecodeOfEncode | internal/client/framebuffer.go:478-502 | decoding an encoded rectangle gives back the crop |
| Replica.DrawEncoded | internal/client/framebuffer.go:206-217 | drawing an image's encoded rectangles leaves its bytes inside them and the old bytes outside |
| Replica.PlanLands | internal/host/service.go:399-429 | whichever plan the host chose, whole or parts, a welcome frame lands as the same pixels with nothing rejected |
| Replica.CaptureSends | internal/damage/damage.go:138-186 | what a comparison hands over is a valid frame of the image within the detector's own rectangle limit, a keyframe over all of it or a delta over exactly the dirty tiles, and a keyframe when forced |
| Replica.DeltaFollows | internal/damage/damage.go:201-258 | painting every dirty tile makes each client tile hash as the new image's, and leaves alone every tile that already did |
| Replica.NothingDirty | internal/damage/damage.go:155-161 | when no tile is dirty the hashes have not changed |
| Replica.AnnouncementWelcomes | internal/host/service.go:341-353 | a new generation's DISPLAY_CONFIG is accepted and makes its keyframe welcome |
| Replica.CaptureKeepsSync | internal/host/service.go:300-361 | one error-free capture keeps host and client in sync, and any keyframe, whatever its reason, makes them byte-equal |
| Replica.ComparisonExactly | internal/damage/damage.go:138-186 | which of error, keyframe, delta and nothing a comparison yields, each if and only if: a keyframe is due when forced, first, of a new geometry, or with damage in too many rectangles, too large a share or too many bands |
| Replica.KeyframeExactly | internal/host/service.go:300-330 | an error-free capture goes out as a keyframe if and only if one is due |
| Replica.EqualTilesEqualImages | internal/damage/damage.go:260-269 | images equal tile by tile are equal |
| Replica.CaptureExactness | internal/damage/damage.go:213-215 | from an exact client, the bytes agree after a capture if and only if it went out as a keyframe or no tile collided |
| Replica.FollowerExactness | internal/damage/damage.go:213-215 | whatever came before, a client that follows an image shows it exactly if and only if none of its tiles merely hashes like the image's |
| System.InputKeepsSync | internal/host/service.go:505-597 | nothing the client sends disturbs the replica |
| System.InterleavedEvents | internal/client/session.go:262-330 | PING and PONG sent between the messages of a capture, even between parts, reach the framebuffer as nothing |
| System.WireIsRun | internal/client/session.go:262-330 | what the framebuffer goes through over a run is exactly what everything handed to the peer makes of it |
| System.ClientFollowsHost | internal/host/service.go:284-361 | the replica theorem over whole runs with heartbeats in between, tile hash by tile hash, with nothing rejected |
| System.ClientEqualsHost | internal/damage/damage.go:138-258 | the replica theorem byte for byte when no tile compared since the last keyframe collided |
| System.StartsInSync | internal/client/framebuffer.go:94-110 | a fresh service and a fresh framebuffer start in sync |
| Recovery.RequestResyncs | internal/host/service.go:306-309 | from a client that is behind, a run is answered with keyframe requests and drained parts only until a keyframe leaves both in sync; the first capture taken with a request pending is one at the latest, and is shown exactly |
| Recovery.KeyframeResyncs | internal/client/framebuffer.go:172-224 | any keyframe, of any geometry, brings a client that is behind back in sync and byte-equal |
| Recovery.DeltaRefused | internal/client/framebuffer.go:267-393 | a capture that is no keyframe leaves a client that is behind exactly as it was, after one request and a drained rest |
| Recovery.RequestIsPending | internal/host/service.go:512-519 | a received request stays pending whatever else arrives |
| Delivery.AcceptedIsTyped | internal/protocol/validate.go:84-206 | an accepted message whose counters are within 64 bits fits the fields it travels in |
| Delivery.WireIsSound | internal/host/service.go:300-361 | everything sent over a run was accepted by the encoder and carries counters within the detector's |
| Delivery.PixelsThroughBytes | internal/protocol/codec.go:27-147 | over any run with 64-bit counters the encoded bytes decode to exactly what was sent, and the framebuffer fed with it ends in sync following the last capture |
| Collision.SameHashesSeeNothing | internal/damage/damage.go:207-219 | a capture whose every tile hashes as remembered counts as unchanged |
| Collision.CollisionShowsStale | internal/damage/damage.go:213-215 | for any two captures that differ in no hash the client goes on showing the first |
| Collision.UnseenExactly | internal/damage/damage.go:155-161 | an unforced capture of the remembered geometry counts as unchanged if and only if the tile count wraps or every tile hashes as the remembered image's |
| Collision.ChangedPixelsStay | internal/damage/damage.go:213-215 | a concrete session under FNV-1a, without any error, in which the client stays wrong |
| Fnv.FeedConcat | internal/damage/damage.go:271-278 | hashing row after row is hashing the rows joined together |
| Fnv.OneHash | internal/damage/damage.go:271-278 | two different rows of five pixels have the same 64-bit FNV-1a hash |
| Fnv.KnownAnswers | internal/damage/damage.go:271-278 | the published 64-bit FNV-1a hashes of nothing and of "foob" |
| WireBounds.ShippedIsDefault | internal/protocol/types.go:253-280 | the shipped configuration is one the bounds below apply to |
| WireBounds.KeyframeBands | internal/damage/damage.go:337-369 | a keyframe of any image up to 8192 by 8192 needs at most 17 bands |
| WireBounds.PartCount | internal/protocol/frame_part.go:74-104 | a keyframe travels in at most 17 parts, a delta in at most 19 |
| WireBounds.V1Fits | internal/host/service.go:371-380 | a prepared v1 frame always fits one message |
| WireBounds.FrameAlwaysTravels | internal/host/service.go:399-429 | under the defaults a modest frame is always planned and every message of the plan accepted |
| WireBounds.HostNeverRefuses | internal/host/service.go:300-361 | under the defaults no legal capture is refused, in either version and whatever came before |
| WireBounds.DefaultRunsNeverFail | internal/host/service.go:284-361 | under the defaults no run of legal captures, heartbeats and client messages ends in a host error |
| Codec.ReadRectangles | internal/protocol/codec.go:242-280 | the reading loop parses exactly the announced rectangles or reports malformed input |
| Codec.UnmarshalOfMarshal | internal/protocol/codec.go:282-579 | every valid message of the sixteen types reads back as itself |
| Codec.MarshalOfUnmarshal | internal/protocol/codec.go:366-579 | every accepted payload is the marshaled form of the message it yields |
| Layout.PayloadExactly | internal/protocol/codec.go:282-365 | for each of the sixteen messages the type number, the length and the offset at which every field is found as a big-endian number; its payload is the one sequence of bytes laid out so |
| Layout.UnmarshalExactly | internal/protocol/codec.go:366-579 | bytes laid out as some message yield it or what is wrong with it; bytes laid out as none are malformed |
| Layout.RecordLayout | internal/protocol/codec.go:27-62 | a record by offset: the four bytes of the magic, version, type, four zeros, length, number, payload, and what follows behind it |
| Layout.RefusedExactly | internal/protocol/codec.go:27-45 | the encoder refuses what validation does and a FRAME_PART below version 2 |
| Layout.DecodeExactly | internal/protocol/codec.go:102-147 | for every receiver and every stream the bytes of the header, by offset and in order, decide whether and why a record is refused before its payload does |
| Records.Encoder.Encode | internal/protocol/codec.go:27-62 | a refused message writes nothing and uses up no number; an accepted one appends its record |
| Records.Encoder.PinVersion | internal/protocol/codec.go:21-25 | the version of later records |
| Records.Decoder.Decode | internal/protocol/codec.go:102-147 | header checks in order, then the payload; only an accepted record moves the sequence |
| Records.Decoder.SetVersionWindow | internal/protocol/codec.go:90-94 | the inclusive window of accepted versions, the sequence untouched |
| Records.AcceptedFits | internal/protocol/codec.go:27-45 | the check after marshaling never fires for a validated message |
| Records.DecodeOfRecord | internal/protocol/codec.go:102-147 | a record decodes to its message exactly when its version is in the window and it is next; otherwise the version or the sequence check stops it |
| Records.AcceptedIsARecord | internal/protocol/codec.go:102-147 | whatever is accepted was, byte for byte, a record of that message with the next number and an allowed version |
| Records.StreamRoundTrip | internal/protocol/codec.go:21-147 | decoding what was encoded, with pins at matching points, returns exactly the messages sent |
| Records.DisplacedRecordStopsStream | internal/protocol/codec.go:94-147 | however records are deleted, repeated or reordered, also across pins, exactly those in order are delivered and the first displaced one stops the stream |
| ClientInput.ReleaseAllTracks | internal/client/input.go:179-210 | releases go out in ascending order, one per held key and button, and stop at the first failure with the books still right |
| ClientInput.PressTracks | internal/client/input.go:84-106 | a key event is sent and recorded, or neither |
| ClientInput.ClickTracks | internal/client/input.go:108-130 | a button event is sent and recorded, or neither |
| ClientInput.FocusTracks | internal/client/input.go:43-63 | losing focus releases everything; it counts as lost only when all of it went out |
| ClientInput.PerformTracks | internal/client/input.go:37-210 | every operation under every send failure keeps Down and Up alternating over the connection's whole trace, as long as nothing is held at Connect, and a successful focus loss or disconnect leaves no Down unanswered |
| ClientInput.RunTracks | internal/client/input.go:37-210 | over whole connections the books match the trace at every moment if and only if nothing is held whenever Connect is called |
| ClientInput.RunNumbers | internal/client/input.go:168-178 | over any run, whatever the books say, input numbers never skip |
| ClientInput.LaterConnectionsAreClean | internal/client/session.go:203-259 | a connection that takes over from a disconnected client is told of nothing before Connect, so Connect is clean |
| ClientInput.EarlyKeyIsLost | internal/client/session.go:250-259 | on a first connection a key pressed before Connect is sent, forgotten, and never released |
| InputSent.KeyExactly | internal/client/input.go:84-106 | a key goes out with the usage, action and modifiers pressed and is then held with those modifiers, or released; a repeated press or unheld release is swallowed |
| InputSent.ButtonExactly | internal/client/input.go:108-130 | likewise a button |
| InputSent.PointerExactly | internal/client/input.go:132-156 | a move and a turn of the wheel go out as they came |
| InputSent.ReleaseExactly | internal/client/input.go:179-210 | the Ups of all held keys ascending, each with its modifiers, then of all buttons ascending, numbered on, up to the first that fails, and just those are no longer held |
| InputSent.FocusExactly | internal/client/input.go:43-63 | losing the focus sends all of that and then FOCUS_LOST, or ends the connection at the first failure |
| InputSent.SettersExactly | internal/client/input.go:31-82 | a new sender, display or connection takes effect without a message, and Connect starts over with nothing held |
| InputSent.DisconnectExactly | internal/client/input.go:65-74 | disconnecting sends as much of it as goes out and is disconnected either way |
| InputState.InputState.SetFocused | internal/client/input.go:43-63 | the method around a failing sender does the specified step |
| InputState.InputState.Disconnect | internal/client/input.go:65-74 | releases what is held and disconnects either way |
| InputState.InputState.Connect | internal/client/input.go:76-82 | connected, unfocused, and nothing inherited |
| InputState.InputState.Key | internal/client/input.go:84-106 | the held-key map follows exactly what was sent |
| InputState.InputState.Button | internal/client/input.go:108-130 | the held-button set follows exactly what was sent |
| InputState.InputState.ReleaseAll | internal/client/input.go:179-210 | the two release loops and FOCUS_LOST do the specified release |
| Handshake.NegotiatedIsHighestCommon | internal/protocol/types.go:348-373 | the highest version in both windows is chosen exactly when it is 1 or 2, and refused otherwise even if a lower common version exists |
| Handshake.SpokenVersionRefused | internal/protocol/types.go:348-373 | two windows from 1 to 5 are refused although both hold version 1 |
| Handshake.NoCommonVersionExactly | internal/protocol/types.go:348-373 | no common version is reported exactly when the windows are disjoint |
| Handshake.LetThroughInStep | internal/protocol/types.go:307-346 | a message that passes the direction and state checks is the next of the exchange |
| Handshake.EstablishedInOrder | internal/transport/peer.go:222-275 | whatever is called and whatever arrives, an endpoint lets AUTH, CLIENT_HELLO, SERVER_HELLO and DISPLAY_CONFIG through in that order, each from its proper side, before anything else, and nothing without TLS |
| Gate.DirectionExactly | internal/protocol/types.go:333-346 | which of the sixteen types either side may send |
| Gate.RefusalsExactly | internal/protocol/types.go:348-373 | an AUTH without TLS and a message out of turn are told apart; windows are malformed exactly when one starts at zero or ends before it starts |
| Gate.LetThroughExactly | internal/transport/peer.go:222-275 | after any calls and any bytes, a message gets through if and only if its side may send it and it is ERROR or CLOSE on a connection not closed, the next of the exchange, or any session message after the exchange |
| Gate.NothingAfterClose | internal/protocol/types.go:307-331 | whatever is called and whatever arrives, after a CLOSE either way only ERROR and CLOSE get through, and after the end nothing |
| Gate.SendExactly | internal/transport/peer.go:130-148 | a send leaves no trace when direction or state refuse it, closes and writes nothing when the encoder does, and is otherwise written as the next record |
| Gate.ReceiveExactly | internal/transport/peer.go:150-174 | a receive closes over any refusal, without counting a record it cannot read, and otherwise yields the message and counts its record |
| Gate.AuthenticatedExactly | internal/transport/peer.go:187-220 | a host goes on if and only if the first record is an AUTH whose token is not all zeros and is its own, if it has one |
| Session.ServingHostIsAuthenticated | internal/session/session.go:108-198 | against any remote end, a serving host has accepted the right token and a window agreeing with its own on the version both its directions are pinned to |
| Gate.BusyExactly | internal/session/session.go:142-156 | a second client with the right token is sent ERROR 3 as record 1, if the limits have room for it, and is let go |
| Gate.GreetingExactly | internal/client/session.go:211-225 | the client sends AUTH with its token, then offers versions 1 to 2 and takes either envelope |
| Gate.AnswerExactly | internal/session/session.go:172-198 | the host negotiates from version 1 to the configured one and answers in the agreed version, pinned both ways |
| Gate.SessionGoesOn | internal/client/session.go:270-330 | a running end stops exactly at what it cannot read, does not handle, or at ERROR and CLOSE |
| Establishment.HeadDecodes | internal/protocol/codec.go:102-147 | the head record of a well-numbered stream inside the window is read whole and leaves the rest |
| Establishment.StaysJoined | internal/client/session.go:197-330 | in every interleaving both byte streams hold well-placed, consecutively numbered records and both ends agree on their counts |
| Establishment.HonestEndsRefuseNothing | internal/transport/peer.go:150-174 | nothing that reaches a listening end is refused by version window, numbering, direction or state |
| Establishment.BothEndsPinned | internal/client/session.go:223-252 | a running client and its host are pinned both ways to the agreed version, and the token was the right one |
| Establishment.SessionEstablishes | internal/session/session.go:133-198 | with the right token and room for the four messages the plain exchange ends with both ends Active |
| Peer.Peer.Send | internal/transport/peer.go:130-148 | a message refused by direction or state changes nothing, one refused by the encoder closes the peer, and an accepted one appends its record and advances the state |
| Peer.Peer.Receive | internal/transport/peer.go:150-174 | the next message and the advanced state, or an error and a closed peer |
| Peer.Peer.PinVersion | internal/transport/peer.go:118-128 | both directions pinned, both sequence counters untouched |
| Peer.Peer.AuthenticateHost | internal/transport/peer.go:187-220 | only an AUTH with an accepted token gets past it; anything else closes the peer |
| Peer.Peer.AcceptHello | internal/session/session.go:172-198 | agree, pin, then answer in the agreed version |
| Peer.Peer.Greet | internal/client/session.go:220-241 | offer both versions, accept either envelope, then pin to the answer |
| Peer.Admissions.Acquire | internal/session/session.go:46-64 | at most one admission is outstanding at any time |
| Peer.Admissions.Release | internal/session/session.go:57-63 | a second or late release never frees someone else's slot |
| Peer.Accept | internal/session/session.go:108-164 | one connection's establishment is the host script's first two reads; the slot is held and the connection kept exactly when it succeeded |
| Link.CaptureIsAtomic | internal/host/service.go:300-361 | whatever input, probes and client moves fall between its stages, a finished capture has sent what it would in one piece and left memory, generation and dimensions the same |
| Link.StaysSound | internal/host/service.go:300-597 | every move of every thread keeps the detector's memory and the framebuffer consistent |
| Replies.HostAnswers | internal/host/service.go:505-530 | the host puts a PONG with the same nonce behind everything sent for a PING, and ends the session exactly over refused input or an answer it cannot send |
| Replies.ClientAnswers | internal/client/session.go:316-320 | the client answers a PING with its own nonce |
| Replies.ClientAsks | internal/client/session.go:272-315 | it asks for a keyframe of its own generation exactly when a frame or part lacks one, passes on every display it takes, and ends the session over anything else the framebuffer rejects |
| LinkInput.WindowSends | internal/client/input.go:43-210 | whatever the window does, only events of the current display go out, and moves inside it |
| LinkInput.RefusedExactly | internal/host/service.go:536-587 | in every interleaving the next event of an honest client is refused if and only if input is disabled, the host's limits reject it, or its generation is not the host's; the sequence and display checks never fire |
| LinkInput.SteadyGeometryNeverRefuses | internal/host/service.go:536-587 | with one geometry, input enabled and equal limits no event of an honest client is refused |
| LinkBooks.InputIsConserved | internal/host/service.go:431-444 | everything the client sent has been read or is under way, in order, and everything read was accepted or counted as dropped |
| LinkBooks.HostHoldsWhatClientHolds | internal/client/input.go:76-130 | on a later connection, with nothing under way and nothing dropped, the host was told of exactly the keys and buttons the client's books hold |
| LinkScreen.ScreenFollows | internal/client/session.go:262-330 | in every interleaving nothing on its way down is rejected, and once it has arrived every tile hashes as the image sent last |
| LinkStale.StaleKeyEndsSession | internal/host/service.go:341-353 | under the shipped v1 limits and for any two captures of different geometry, a key pressed between them ends the session |
| LinkStale.OnePixelWiderEndsSession | internal/host/service.go:544-547 | a concrete such session |
| Wired.WireRunsLink | internal/client/session.go:262-330 | the session the byte streams carry is a run of the joined session |
| Wired.BytesCarrySession | internal/transport/peer.go:130-174 | what either end decodes next from its stream is the next message the other handed over, and the stream is empty exactly when nothing is under way |
| Wired.WireNeverEnds | internal/transport/peer.go:130-174 | a move that leaves the session going leaves both ends up |
| Wired.FromAuthToPixels | internal/client/session.go:197-330 | in every interleaving from AUTH on, a running client's host accepted its token, both are pinned to one version, and a client that has read every byte between captures follows the host's image |
| FirstImage.FirstImageShown | internal/session/session.go:133-198 | with the right token and the shipped v1 limits the plain exchange ends with the first capture shown, whatever it is |

## Left out

- TLS itself, sockets, deadlines, contexts, certificates and token files: input and output.
  Whether a connection uses TLS is a flag, the token a value compared with the configured one.
- Compression and the hash function: parameters, as said under Assumptions.
- Counters wider than they can reach: record and frame sequences, generations and drop
  counts are unbounded naturals. The record results hold for sequences within 64 bits.
- System.ClientFollowsHost: asks for a tile size whose arithmetic wraps for no legal image; what
  goes unseen for any other is `Collision.UnseenExactly`.
- HostInput.MovesStayInside: its runs, like those of System, take a capture as one step. Input
  handled between the storing of the native dimensions and of the generation
  (internal/host/service.go:317-319, 349-352) is modelled in Link, where the capture is not
  affected; such an event is still mapped from the old advertised to the new native dimensions.
- Service.Service.PrepareCapture: asks that every byte the averaging loops read exists; the
  source stops with a run-time failure where one does not.
- Dirty ratios are reals; the source compares in floating point.
- The payload reader and writer are functions from bytes to a value and the remaining bytes,
  so the cursor and the growing buffer are not objects of their own.
- Service.Service.Send: only refusals by the encoder are modelled, not failed socket writes.
- Establishment.HonestEndsRefuseNothing: a send and a receive are each one atomic step, and
  both ends have the same limits. Finer interleavings inside Send and Receive, where a
  concurrent Close can be overwritten (internal/transport/peer.go:146), are not claimed.
- Gate.NothingAfterClose: likewise takes a send and a receive as one step each.
- Peer.Peer.Receive: the remote end's bytes are a value known beforehand, and reading past
  them is a short read; waiting for more appears in Establishment, where a read needs bytes.
- Missing messages and unknown roles, flows and states, which the source answers as
  malformed, cannot be written in the model's types.
- Session.ServingHostIsAuthenticated: the service is modelled as any sequence of its kinds
  of messages; what it sends is the subject of Host and System.
- HostInput.NothingUncounted: dropped events may include releases, so nothing is said about
  what the host's input device holds before the session ends.
- The capture and send goroutines around the one-slot mailbox: a run is the list of captures
  that were taken out of it, so any dropping of captures is covered.
- The key order of releases is found by repeatedly taking the least held key instead of
  sorting a slice.
- A message the host refuses ends the session in the source and in Link and Wired; the runs of
  System and HostInput pass over it, so that what they promise does not depend on it. Failures
  of the input device are not modelled.
- Wired.FromAuthToPixels: a thread's locked section and its writes are one step, and nothing is
  sent whose values or numbers outgrow 64 bits. A session that ends stops there; reconnecting is
  a new run, with the client's books carried over.
- Mapping of window coordinates to display coordinates on the client: floating point.
- Heartbeat timing and the order of watchdog and read deadline, reconnection delays, the
  window and its renderer, screen capture, input injectors, command-line handling,
  transport.Queue and key tables: user interface, foreign calls or easy members.
