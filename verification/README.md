# A verified model of the screen-update path, the desktop processes and the repeater

This project models the parts of the VNC server that decide which pixels a
viewer gets, the transport between its two desktop processes, and the repeater
that connects servers and viewers.  It proves what these parts promise each
other over whole runs, and, where the code falls short of that, exactly when.

| file | models |
|---|---|
| `Option.dfy`, `Geometry.dfy`, `Bands.dfy`, `Region.dfy`, `Frames.dfy`, `FrameBuffer.dfy` | missing values; rectangles and regions, and how the region library lists them; pictures and the bytes that show them; clipping, copying, moving, comparing and overlaying of frame buffers |
| `UpdateKeeper.dfy`, `KeeperMeaning.dfy` | the keeper of pending updates, and which screen changes its state describes |
| `ScreenDriver.dfy`, `GrabOptimizator.dfy` | the driver as its users see it; the planner that grabs one rectangle or many |
| `PixelDiff.dfy`, `UpdateFilter.dfy`, `FilterMeaning.dfy` | the simple pixel diff, the fast filter that refines it, and what the filtered update says to a viewer that repeats its copies |
| `Poller.dfy`, `UpdateHandler.dfy`, `Pipeline.dfy` | polling, extraction, and the whole pipeline over runs |
| `Codec.dfy`, `Gate.dfy`, `ExtractReply.dfy`, `UserInput.dfy` | the byte formats between the two processes and the functions that send and read them |
| `Replica.dfy`, `ReplicaSession.dfy`, `ReplicaLimits.dfy` | the frame-buffer replica in the other process, over sessions, and exactly when an exchange leaves it behind |
| `EndToEnd.dfy` | pipeline and replica together: from the display to the client's buffer |
| `ReconnectingChannel.dfy` | the transport that survives a reconnection, under every interleaving |
| `Repeater.dfy`, `Relay.dfy`, `Dictionary.dfy` | session tables, the relaying loop, and the settings dictionary of the repeater |
| `CursorUpdates.dfy`, `Clipboard.dfy` | drawing and restoring the cursor; clipboard line endings |

Code that updates objects in place is a class whose methods are proved against
functions of the old state; the properties are lemmas about those functions and
about the runs that they make up.  A region is the finite set of its pixels, a
picture is a map from points to pixels, a gate is the bytes not yet read.  The
rectangles of a region are those of the region library, which the pixels alone
fix: bands as high and spans as wide as possible.

## Where the code does less than it seems to

Each of these is proved, with the exact condition or a repaired form beside it.

- `addCopyRect` keeps the meaning of the pending update if and only if the copy
  is safe: a copy that lands nowhere hits only dirty pixels, and a first copy
  has no dirty pixel where its source and its destination overlap.  With the two
  middle steps exchanged the second condition is not needed.
- Only the first rectangle of a copied region is sent to the other process.
  The region arrives whole if and only if it is at most one rectangle.  The
  reply holds all that the filter changes, for all pictures, if and only if the
  filter's moves bring every pixel outside the first rectangle back to its
  place, which can be seen before; a second piece that starts at the source
  point is one that does.  The excluded region can split a copy; this needs a
  SET_EXCLUDING_REGION message (desktop-ipc/UpdateHandlerServer.cpp:176-181),
  as nothing else in the repository sets that region.
- A container that holds several copied rectangles is merged by its first one.
  The merge keeps the meaning for all images if and only if it is safe: the first
  rectangle lands nowhere and hits only pixels that are dirty or told as changed,
  or it lands and its copy is safe where nothing is told as changed; and every
  pixel of a further rectangle is marked anyway, or comes from a clean pixel that
  stands for the same old one.
- An extraction cuts the excluded region out of the copied region and leaves the
  source point as it was.  What is handed out describes the step by its own
  fields, for all images, if and only if each rectangle that the cut leaves has
  the old corner or is marked altogether.
- The filter repeats the copies of an extracted container one after the other,
  all from one source point.  What it passes on describes the step of the backup
  picture, for all pictures, if and only if every piece comes from the screen and
  from pixels that no earlier move has touched.  A copy that landed whole is such.
- A failed grab leaves the keeper empty and the backup as it was.  That does no
  harm if and only if every pixel that is not excluded was clean and stays in its
  place; otherwise only polling finds the stale pixels again.
- A restart of the backup picture is judged by the size that the driver's work
  buffer had before, although the backup then becomes what the display is when
  the properties are applied.  It is not told when the report and that buffer
  show the old size and the display has the backup's pixel format.  The
  exchange ends in agreement for all pictures if and only if no such restart is
  due and no piece that the reply leaves out is moved, both of which can be
  seen before it.  If the display has the backup's size as well, the next
  exchange repairs it.  For a driver that reports the properties truly it is
  due exactly when the work buffer has another pixel format than display and
  backup, all of one size: a client reconnects to a server that started in
  another format, and the display turns to the client's before the first
  extraction.  If the display is also resized between the report and the
  applying, not even the size is told, the client's picture keeps the old one,
  and no exchange repairs that until the driver reports another change.
- The coordinates of a window never reach the client: it reads a flag byte that
  the server does not write.
- A replacement of a channel before the old one is cleaned up leaks one channel,
  and another one is deleted twice in the end.  Every channel is deleted exactly
  once if and only if that does not happen.  Until the next read or write `close`
  works on a channel that has been deleted, and in no other case.
- The repeater checks only servers for duplicate codes, and mode 1 can leave half
  a session behind.
- A dictionary lookup compares with a free slot if and only if the key's hash is
  0 and a free slot is met before the key.
- The relay keeps the bytes for the viewer, whatever they are, if and only if
  every send leaves more bytes than it took, or none.
- A carriage return before a line feed still goes out to the peer if and only if
  the text has two of them before a line feed.

Two remarks on reading the sources.  `Rect::intersection` clears an inverted
result (region/Rect.h:149-160), although callers also test for negative sizes;
the model follows the code.  The comment at desktop-ipc/ReconnectingChannel.cpp:70
says that the channel that is deleted there is not in use; that is proved, but the
channel stays behind as the old one.

## Model

| member | source | states |
|---|---|---|
| Regions.GetRectVector | region/Region.cpp:136-148 | the rectangles of a region are not empty, disjoint and cover exactly its pixels; a region that is one rectangle is listed as that rectangle |
| Bands.BandsList | region/x11region.c:105-136 | bands from top to bottom and spans from left to right, as high and as wide as possible, hold every pixel of a region once and nothing else |
| Bands.RectIsOneBand | region/x11region.c:129-136 | a rectangle is one band of one span |
| Regions.TwoSpans | region/x11region.c:129-136 | two pixels of a row with a gap between them are two rectangles, the left one first |
| Geometry.IntersectionContains | region/Rect.h:149-160 | a point is in the intersection exactly when it is in both rectangles, also when the overlap is inverted and cleared |
| Frames.RowWritten | rfb/FrameBuffer.cpp:219-221 | one memcpy of whole pixels at row and column offsets changes the picture in one stretch of one row, and takes it from the source's row |
| Frames.RowCompared | rfb/FrameBuffer.cpp:262-266 | one memcmp of a row says whether all pixels of the two stretches are equal |
| FrameBuffers.ClipRectAt | rfb/FrameBuffer.cpp:107-136 | a pixel is in the clipped rectangle exactly when it is in the buffer and the rectangle and its counterpart is in the source buffer |
| FrameBuffers.FrameBuffer.CopyFrom | rfb/FrameBuffer.cpp:189-224 | inside the rectangle, where the source has pixels, the picture is the source's; elsewhere it is unchanged; nothing is done when the pixel formats differ |
| FrameBuffers.FrameBuffer.Move | rfb/FrameBuffer.cpp:271-311 | an overlapping move in place gives the picture of a copy from an untouched original, for both directions |
| FrameBuffers.FrameBuffer.CmpFrom | rfb/FrameBuffer.cpp:232-269 | true exactly when all pixels that both buffers have in the rectangle are equal |
| FrameBuffers.FrameBuffer.Overlay | rfb/FrameBuffer.cpp:138-187 | only pixels under the mask are taken from the source, the rest stays |
| FrameBuffers.FrameBuffer.Clone | rfb/FrameBuffer.cpp:48-58 | afterwards shape and picture are those of the source |
| UpdateKeepers.UpdateKeeper.ClipCopy | desktop/UpdateKeeper.cpp:65-92 | the two-stage clipping leaves exactly copyRect, border and shifted border intersected, and the source is that moved back |
| UpdateKeepers.UpdateKeeper.AddCopyRect | desktop/UpdateKeeper.cpp:57-131 | the container becomes the set-level specification, for every rectangle and source |
| UpdateKeepers.UpdateKeeper.KeepCopyRect | desktop/UpdateKeeper.cpp:94-130 | the steps after clipping, in their order, amount to the set-level specification |
| UpdateKeepers.UpdateKeeper.AddChangedRegion | desktop/UpdateKeeper.cpp:40-49 | the changed region grows by the region, cropped to the border |
| UpdateKeepers.UpdateKeeper.DazzleChangedRegion | desktop/UpdateKeeper.h:53-57 | whatever was pending, the changed region becomes exactly the border, and nothing else changes |
| UpdateKeepers.UpdateKeeper.AddUpdateContainer | desktop/UpdateKeeper.cpp:164-196 | merging copies the first rectangle of the other copied region, as the region library lists it, then adds the changes, flags, video and cursor position |
| UpdateKeepers.UpdateKeeper.CheckForUpdates | desktop/UpdateKeeper.cpp:204-219 | true exactly when a flag is set or a dirty pixel lies in the region |
| UpdateKeepers.UpdateKeeper.Extract | desktop/UpdateKeeper.cpp:221-238 | delivers what is pending, cropped and less the excluded region, and clears everything but the cursor position |
| KeeperMeaning.LandingIsRect | desktop/UpdateKeeper.cpp:65-92 | a copy lands at exactly the pixels of the rectangle in the border whose source is in the border |
| KeeperMeaning.AddChangedKeepsMeaning | desktop/UpdateKeeper.cpp:40-49 | after a redraw inside the region the container describes the step from the old image to the newest |
| KeeperMeaning.AddCopyKeepsMeaningIffSafe | desktop/UpdateKeeper.cpp:57-131 | for all images the operation keeps the described step if and only if the copy is safe |
| KeeperMeaning.AddCopyKeepsMeaning | desktop/UpdateKeeper.cpp:57-131 | for a safe copy every unmarked border pixel has the old image's value, at its own place or at the copy's source |
| KeeperMeaning.UnmarkedArrival | desktop/UpdateKeeper.cpp:90-92 | a copy whose source lies outside the border loses the meaning if it hits a clean pixel |
| KeeperMeaning.LostDirtyPixel | desktop/UpdateKeeper.cpp:116-126 | a dirty pixel in the overlap of source and destination is forgotten |
| KeeperMeaning.OverlapCounterexample | desktop/UpdateKeeper.cpp:116-126 | three pixels, the middle one dirty, moved right by one: the meaning is lost |
| KeeperMeaning.RepairedKeepsMeaning | desktop/UpdateKeeper.cpp:116-126 | with carrying before removing no condition on the overlap is needed |
| KeeperMeaning.AddCopyDirtySet | desktop/UpdateKeeper.cpp:57-131 | changed and copied together grow by exactly copyRect in the border when the copy lands, and stay otherwise |
| KeeperMeaning.AddCopyWellFormed | desktop/UpdateKeeper.cpp:106-115 | the copied region stays empty or one rectangle |
| KeeperMeaning.AddContainerDirtySet | desktop/UpdateKeeper.cpp:164-196 | merging adds exactly the other changes and, if the copy lands, the first copied rectangle; further copied rectangles are not taken over |
| KeeperMeaning.MergeComposes | desktop/UpdateKeeper.cpp:164-196 | for at most one copied rectangle a safe merge composes the two updates |
| KeeperMeaning.MergeKeepsMeaningIffSafe | desktop/UpdateKeeper.cpp:164-196 | any containers: merging keeps the meaning for all images if and only if the merge is safe, which depends on border, rectangles and both containers before it |
| KeeperMeaning.SingleMergeIsSafeIff | desktop/UpdateKeeper.cpp:164-196 | for at most one copied rectangle the merge is safe exactly when that rectangle is |
| KeeperMeaning.SafeCopyIsSafeFirst | desktop/UpdateKeeper.cpp:170-177 | a copy that is safe for the keeper is safe as the first rectangle of a merge, whatever is told as changed |
| KeeperMeaning.FurtherRectIsLost | desktop/UpdateKeeper.cpp:170-177 | into a clean keeper: a pixel of a further copied rectangle that is not told as changed loses the meaning, unless it is copied from its own place |
| KeeperMeaning.RunKeepsMeaning | desktop/UpdateKeeper.cpp:40-238 | over every run of faithful operations and extractions under one border the container describes the step from the image at the last extraction to the current one |
| KeeperMeaning.RunDeliversSteps | desktop/UpdateKeeper.cpp:221-238 | every extraction of every such run hands out the step since the one before, by its own rectangles and source point and for all pixels that are not excluded, for each list of the rectangles that makes the cut harmless; pixels that are neither marked nor excluded are always what they were |
| KeeperMeaning.ExtractionTellsIffHarmless | desktop/UpdateKeeper.cpp:221-238 | for each list of the copied rectangles the extracted container describes the step outside the excluded region, for all images, if and only if every rectangle that border and exclusion leave has the old corner or is marked altogether |
| KeeperMeaning.CutCornerCounterexample | desktop/UpdateKeeper.cpp:230-236 | four pixels, three of them copied one to the right, the first of these excluded: what is left says that it comes from its own start |
| KeeperMeaning.RunKeepsDirty | desktop/UpdateKeeper.cpp:40-196 | between extractions no dirty pixel is lost and at most one copied rectangle is pending, over every run of operations |
| KeeperMeaning.RunHandsOutProperties | desktop/UpdateKeeper.cpp:183-230 | over every run of operations an extraction hands out a flag or a pixel of the video region exactly when it was pending or in some container merged since the one before, and the cursor position of the container merged last; only the position stays |
| GrabOptimizators.SumDropFirst | desktop/GrabOptimizator.cpp:266-272 | subtracting the oldest sample from the sum gives the sum of what is left |
| GrabOptimizators.PushedKeepsNewest | desktop/GrabOptimizator.cpp:249-272 | a window of ten drops its oldest sample for a new one, a shorter one grows |
| GrabOptimizators.GrabOptimizator.AddWholeTElement | desktop/GrabOptimizator.cpp:249-272 | the window takes the sample, keeps its ten newest, and the stored sum is its sum |
| GrabOptimizators.GrabOptimizator.AddFragmentStats | desktop/GrabOptimizator.cpp:312-335 | the same for the window of overheads |
| GrabOptimizators.GrabOptimizator.GetOptimizationAvailable | desktop/GrabOptimizator.cpp:118-132 | a new screen area clears both windows; averages are available exactly when both windows are long enough |
| GrabOptimizators.GrabOptimizator.RefreshStatistic | desktop/GrabOptimizator.cpp:154-167 | when the time is over the oldest sample of each window goes if both are long enough for the current screen area, windows of another area are cleared, and else nothing changes |
| GrabOptimizators.GrabOptimizator.ChoosePlan | desktop/GrabOptimizator.cpp:57-112 | with both windows long enough, one rectangle is taken exactly when its extra area costs no more, at the average whole-screen time, than the overheads of the further pieces; the decision is by the statistics of the current screen area, and no average of an empty window is taken |
| GrabOptimizators.PlanIsCheapest | desktop/GrabOptimizator.cpp:57-112 | for all statistics which plan is taken when: the cheaper one once both windows are long enough, before that the one whose samples are missing, and else one rectangle exactly when the pieces are large together |
| GrabOptimizators.BoundsPreferredIff | desktop/GrabOptimizator.cpp:62-77 | one rectangle is chosen exactly when the extra area costs no more than the saved overheads |
| GrabOptimizators.GrabOptimizator.GrabOneRect | desktop/GrabOptimizator.cpp:220-247 | on success the whole rectangle is grabbed and nothing else; a sample is taken exactly when the grab succeeds, its time is known and the rectangle is large, and is the whole-screen time that makes the measured one its share |
| GrabOptimizators.OverheadExplainsTime | desktop/GrabOptimizator.cpp:290-303 | the overhead that a sample records makes the planner's estimate equal to the measured time |
| GrabOptimizators.GrabOptimizator.GrabFragments | desktop/GrabOptimizator.cpp:274-310 | on success all pieces are grabbed and nothing else; a sample is taken exactly when the grab succeeds, its time is known, the pieces are many and a whole-screen time is there |
| GrabOptimizators.GrabOptimizator.Grab | desktop/GrabOptimizator.cpp:41-116 | on success every pixel of the region shows the display, by the plan that saves time by the statistics of the moment; these take one more sample or none, as the plan and the measured time say |
| PixelDiffs.TightIsUnique | desktop/UpdateFilter.cpp:231-282 | the smallest rectangle around the differing pixels is unique |
| PixelDiffs.BoxesCoverDiff | desktop/UpdateFilter.cpp:98-229 | smallest boxes of passed rectangles contain the simple diff and stay inside the input |
| UpdateFilters.TrimmedIsTight | desktop/UpdateFilter.cpp:246-282 | outermost differing bytes, divided by the bytes per pixel, bound exactly the differing pixels, sentinel start values included |
| UpdateFilters.UpdateFilter.UpdateChangedSubRect | desktop/UpdateFilter.cpp:231-282 | a rectangle whose first row differs contributes exactly the smallest rectangle around all its differing pixels |
| UpdateFilters.UpdateFilter.ScanRow | desktop/UpdateFilter.cpp:254-277 | the two byte searches give bounds that no differing byte of the row lies outside of, and that differ themselves or are the old ones |
| UpdateFilters.UpdateFilter.UpdateChangedRect | desktop/UpdateFilter.cpp:154-229 | the joined blocks cover every differing pixel, lie in the rectangle, start with a differing row and contribute their smallest boxes |
| UpdateFilters.UpdateFilter.ScanBlockRow | desktop/UpdateFilter.cpp:178-226 | the same for one row of blocks, also when a later block reaches the top of a joined one |
| UpdateFilters.UpdateFilter.GetChangedRegion | desktop/UpdateFilter.cpp:98-152 | the same for any rectangle inside the buffer, although fifteen lines are skipped after each differing one |
| UpdateFilters.UpdateFilter.Filter | desktop/UpdateFilter.cpp:46-96 | does nothing when the shapes differ, only repeats the moves when the grab fails, and else synchronizes the backup and passes on the boxes that it found, and nothing if it found no difference |
| UpdateFilters.FindsDiff | desktop/UpdateFilter.cpp:82-95 | what the filter passes on holds every difference and nothing unchecked, and is empty exactly when nothing differs |
| UpdateFilters.FindsBoxes | desktop/UpdateFilter.cpp:98-282 | every pixel passed on lies in the smallest box around the differing pixels of a rectangle inside one checked piece that starts with a differing row, is at most one row of blocks high and differs in each of its blocks |
| UpdateFilters.FilterSynchronizes | desktop/UpdateFilter.cpp:46-96 | afterwards the backup equals the screen on every checked pixel and is unchanged elsewhere, and every backup pixel that changed is reported as changed or copied |
| UpdateFilters.MovesStayInside | desktop/UpdateFilter.cpp:64-72 | repeating the copies changes no pixel outside the copied rectangles |
| FilterMeaning.FilterDescribesIffDirect | desktop/UpdateFilter.cpp:46-96 | for all pictures the filtered container, with its copies repeated from their origins, describes the step from the old backup to the new one, if and only if the moves are direct |
| FilterMeaning.SingleMoveIsDirectIff | desktop/UpdateFilter.cpp:64-72 | one rectangle moves directly exactly when all its pixels come from the screen |
| FilterMeaning.LandedCopyIsDirect | desktop/UpdateKeeper.cpp:57-131 | a copy that the keeper recorded moves directly |
| FilterMeaning.SentIsEnoughIff | desktop-ipc/UpdateHandlerServer.cpp:120-143 | for all pictures and whatever the filter finds, the changed region and the first copied rectangle hold all that it changed, if and only if its moves bring every screen pixel outside that rectangle back to its place |
| FilterMeaning.SecondInPlace | desktop/UpdateFilter.cpp:64-72 | of two pieces the second moves nothing if it starts at the source point, so two pieces can be enough |
| FilterMeaning.StepAsImages | fb-update-sender/UpdateSender.cpp:173-188 | what describes the step of the backup is what a merge into a viewer's keeper asks for |
| Pollers.TilesCoverDiff | desktop/Poller.cpp:87-101 | the reported tiles contain every differing pixel and stay on the screen |
| Pollers.ReportedIff | desktop/Poller.cpp:82-101 | a pixel is reported exactly when one of its square of 16 by 16 differs |
| Pollers.ScanScreen | desktop/Poller.cpp:87-101 | the tile loops report exactly the pixels of tiles that hold a difference; the tiles partition the screen, also at its edges |
| Pollers.Poller.Poll | desktop/Poller.cpp:69-103 | one turn reports those tiles to the keeper, or a new screen size when the shapes differ |
| UpdateHandlers.UpdateHandler.constructor | desktop/UpdateHandlerImpl.cpp:27-51 | the backup has the screen's shape and the whole screen is pending |
| UpdateHandlers.UpdateHandler.Extract | desktop/UpdateHandlerImpl.cpp:60-122 | on a normal ending the backup is synchronized with the grabbed screen on all checked pixels; new properties start the backup over and clear the regions, and count as a new size by the report or by the old work buffer; the delivered container is fixed on every ending |
| UpdateHandlers.DeliveredProperties | desktop/UpdateHandlerImpl.cpp:60-111 | on every ending but an exception the driver's video region inside the buffer is handed out and no other, with the driver's cursor position and the flags that were pending; a restart adds the size flag |
| UpdateHandlers.UpdateHandler.ApplyNewScreenProperties | desktop/UpdateHandlerImpl.cpp:124-140 | one to three tries; failure only after all three |
| UpdateHandlers.UpdateHandler.SetFullUpdateRequested | desktop/UpdateHandlerImpl.cpp:142-146 | the region becomes pending and a full update is requested |
| UpdateHandlers.UpdateHandler.InitFrameBuffer | desktop/UpdateHandler.cpp:35-39 | the backup starts over from the other process's picture |
| Pipeline.StartsTracked | desktop/UpdateHandlerImpl.cpp:43-50 | a new handler tracks every pixel that is out of date |
| Pipeline.ExtractionCatchesUp | desktop/UpdateHandlerImpl.cpp:60-122 | after every extraction the backup shows the display at all pixels that the excluded region did not take away |
| Pipeline.PollTracksEverything | desktop/Poller.cpp:69-103 | after one polling turn whose grab succeeds the keeper has every pixel that is out of date, whatever was missed before |
| Pipeline.RunKeepsTracked | desktop/UpdateHandlerImpl.cpp:60-122 | over every run of reports, copies, polls, exclusions, extractions and failed grabs each out-of-date pixel is pending, in a copy to be picked up, or was excluded or lost to a failed grab |
| Pipeline.RunExtractsUpToDate | desktop/UpdateHandlerImpl.cpp:60-122 | in every run an extraction leaves the backup up to date outside the excluded pixels and those that a failed grab lost |
| Pipeline.RunExtractsEqual | desktop/UpdateHandlerImpl.cpp:60-122 | with nothing excluded backup and display are equal after every extraction, once a polling turn followed each failed grab |
| Pipeline.FailedGrabKeepsTrackedIff | desktop/UpdateFilter.cpp:74-80 | for all pictures a failed grab loses no stale pixel if and only if every pixel that is not excluded or missed was clean and stays in its place |
| Pipeline.ExtractTracked | desktop/UpdateHandlerImpl.cpp:60-122 | a normal ending of the handler object's extraction is such a step, and an unsynchronized one is a failed grab |
| Pipeline.PollTracked | desktop/Poller.cpp:69-103 | a turn of the poller object whose grab succeeds is such a step |
| Codec.U64RoundTrip | desktop-ipc/UserInputServer.cpp:178-184 | eight big-endian bytes come back as the number, and what follows stays |
| Codec.NumbersAreBigEndian | io-lib/DataOutputStream.cpp:62-113 | the byte that is sent first weighs most, for numbers of 16, 32 and 64 bits |
| Codec.I32RoundTrip | desktop-ipc/DesktopServerProto.cpp:107-136 | a signed number comes back from its two's complement bytes |
| Codec.PixelFormatRoundTrip | desktop-ipc/DesktopServerProto.cpp:80-105 | the eight transmitted fields of an accepted pixel format come back; the byte order is the receiver's |
| Codec.DimensionRoundTrip | desktop-ipc/DesktopServerProto.cpp:107-121 | an accepted dimension comes back |
| Codec.PointRoundTrip | desktop-ipc/DesktopServerProto.cpp:123-136 | a point comes back |
| Codec.RectRoundTrip | desktop-ipc/DesktopServerProto.cpp:138-157 | an accepted rectangle, sent as corner and size, comes back with its edges |
| Codec.RegionRoundTrip | desktop-ipc/DesktopServerProto.cpp:159-185 | any number of accepted rectangles comes back in order, and what follows stays unread |
| Codec.TextRoundTrip | desktop-ipc/DesktopServerProto.cpp:216-226 | text of any content comes back from its length and bytes |
| Gates.SendPixelFormat | desktop-ipc/DesktopServerProto.cpp:94-105 | writes the format of a pixel format |
| Gates.ReadPixelFormat | desktop-ipc/DesktopServerProto.cpp:80-92 | reads it, refusing what the check refuses |
| Gates.ReadDimension | desktop-ipc/DesktopServerProto.cpp:107-114 | reads a dimension, refusing what the check refuses |
| Gates.ReadRect | desktop-ipc/DesktopServerProto.cpp:138-148 | reads a rectangle, refusing what the check refuses |
| Gates.SendRegion | desktop-ipc/DesktopServerProto.cpp:159-173 | writes the count and the rectangles of some listing of the region |
| Gates.ReadRegion | desktop-ipc/DesktopServerProto.cpp:175-185 | reads the union of the listed rectangles, and fails where the format fails |
| ExtractReplies.ReplyRoundTrip | desktop-ipc/UpdateHandlerClient.cpp:80-161 | every reply with accepted rectangles and payloads of the announced sizes decodes to itself, a picture in the receiver's byte order, and whatever follows stays unread |
| ExtractReplies.PatchesRoundTrip | desktop-ipc/UpdateHandlerClient.cpp:114-121 | any number of rectangles with their pixels |
| ExtractReplies.ScreenRoundTrip | desktop-ipc/UpdateHandlerClient.cpp:80-109 | the optional new properties with the whole picture, in the receiver's byte order |
| ExtractReplies.CopyRoundTrip | desktop-ipc/UpdateHandlerClient.cpp:123-132 | the optional copy |
| ExtractReplies.ShapeRoundTrip | desktop-ipc/UpdateHandlerClient.cpp:141-161 | the optional cursor shape with pixels and mask |
| Replica.SendFrameBuffer | desktop-ipc/DesktopServerProto.cpp:187-200 | the bytes written show the buffer's picture in the rectangle |
| Replica.ReadFrameBuffer | desktop-ipc/DesktopServerProto.cpp:202-214 | the bytes read replace the picture in the rectangle and nowhere else; a short stream changes nothing |
| Replica.PatchTakesOver | desktop-ipc/DesktopServerProto.cpp:187-214 | a rectangle that shows another picture turns its part of the buffer into that picture |
| Replica.PatchesTakeOver | desktop-ipc/UpdateHandlerClient.cpp:114-121 | any list of such rectangles, overlapping or not, turns their union into that picture |
| Replica.PictureIsFull | rfb/FrameBuffer.cpp:363-381 | every buffer shows a picture whose pixels have the bytes of its format |
| Replica.InitRoundTrip | desktop-ipc/UpdateHandlerServer.cpp:183-194 | the first message decodes to itself, up to the byte order |
| Replica.UpdateHandlerClient.SendInit | desktop-ipc/UpdateHandlerClient.cpp:204-213 | writes format, dimension and a payload that shows the whole picture |
| Replica.UpdateHandlerClient.Receive | desktop-ipc/UpdateHandlerClient.cpp:80-166 | reads exactly one reply, delivers its container, and leaves the picture that the reply makes of the old one; when the reply breaks off, the part of the container that is handed out says that the picture is new or holds every pixel that changed |
| Replica.SendReply | desktop-ipc/UpdateHandlerServer.cpp:105-159 | writes exactly one reply, which tells the container and the picture |
| Replica.UpdateHandlerServer.ExtractReply | desktop-ipc/UpdateHandlerServer.cpp:91-160 | one extraction and its reply; nothing is written when the extraction throws; the reply holds the whole picture exactly when the keeper says so, or a restart meets a report of a new size, a work buffer of another size than the backup's, or a display of another format |
| Replica.UpdateHandlerServer.ServerInit | desktop-ipc/UpdateHandlerServer.cpp:183-194 | the backup starts as the picture in the message |
| ReplicaSessions.Transmitted | desktop-ipc/UpdateHandlerServer.cpp:91-160 | the receiver ends with the sender's picture exactly when the whole picture was sent or the rectangles cover every pixel that differs |
| ReplicaSessions.SameUpdateTold | desktop-ipc/UpdateHandlerClient.cpp:111-138 | with at most one copied rectangle the client's container is the server's |
| ReplicaSessions.Exchange | desktop-ipc/UpdateHandlerClient.cpp:69-166 | one request and its reply between the two objects: the container arrives, nothing is left in the stream, and the pictures agree exactly under the condition above, but after an untold size the client's is what it was and has the wrong size |
| ReplicaSessions.Connect | desktop-ipc/UpdateHandlerServer.cpp:183-194 | after the first message both pictures agree in dimension, transmitted format and all pixels |
| ReplicaSessions.ExchangeTracked | desktop-ipc/UpdateHandlerServer.cpp:91-160 | an exchange between the objects is one event of a session; if the reply covers what changes it keeps the replica in step unless a size is untold, and the pictures agree after it unless a restart is, and then the client keeps its picture |
| ReplicaSessions.ExtractionStaysInStep | desktop-ipc/UpdateHandlerServer.cpp:91-160 | the same for any extraction event, which carries what the filter did |
| ReplicaSessions.RunStaysInStep | desktop-ipc/UpdateHandlerServer.cpp:91-160 | over every session whose extractions are covered and leave no size untold, which is seen before each, the pictures agree or the next reply holds every pixel |
| ReplicaSessions.RunEndsInAgreement | desktop-ipc/UpdateHandlerServer.cpp:91-160 | after every completed exchange of every such session the two pictures have one shape, and agree unless an untold restart was due before it |
| ReplicaLimits.ExchangeAgreesIffTold | desktop/UpdateHandlerImpl.cpp:88-109 | for every pair of pictures in step, whatever the work buffer and the display show and whatever the filter finds, an exchange with a given report ends in agreement, if and only if no untold restart is due and the filter moves no pixel outside the first copied rectangle, or the reply holds all pixels anyway |
| ReplicaLimits.HonestAndUntold | desktop/WindowsScreenGrabber.cpp:123-141 | for a driver that compares the display with its work buffer the restart is untold exactly when only the work buffer has another pixel format |
| ReplicaLimits.HonestSizeIsTold | desktop/WindowsScreenGrabber.cpp:123-141 | if the report's size flag fits the display when it is applied, no size is untold |
| ReplicaLimits.ReconnectedDisagrees | desktop-ipc/UpdateHandlerServer.cpp:91-160 | one pixel, a server started with 16 bits, a client with 32: after the display turned to 32 and one exchange the pictures differ, whatever two pixels they show |
| ReplicaLimits.ResizedDisagrees | desktop/UpdateHandlerImpl.cpp:88-109 | the same client and server, the display two pixels wide when it is applied: the client's picture keeps the old size, whatever the display shows |
| ReplicaLimits.UntoldSizeStays | desktop-ipc/UpdateHandlerServer.cpp:91-160 | over every run without another reported change the two sizes stay apart |
| ReplicaLimits.Reconnect | desktop-ipc/UpdateHandlerServer.cpp:183-194 | the objects get there for any size and any two formats: started, connected, the display changed, an untold restart is due |
| ReplicaLimits.ReconnectAndResize | desktop/UpdateHandlerImpl.cpp:124-140 | and with the display resized after the report the size is untold, too |
| ReplicaSessions.RunCopiesAreSingle | desktop-ipc/UpdateHandlerServer.cpp:133-143 | while nothing is excluded no copied region has several rectangles, so every extraction is covered, over every session |
| ReplicaSessions.CopyToldWholeIff | desktop-ipc/UpdateHandlerServer.cpp:133-143 | the copied region arrives whole if and only if it is at most one rectangle |
| ReplicaLimits.ExcludedSplitsCopy | desktop/UpdateKeeper.cpp:221-238 | one excluded pixel cuts a recorded copy into two rectangles, in the order of the region library |
| ReplicaLimits.SplitCopyDisagrees | desktop/UpdateFilter.cpp:64-72 | on that row the filter moves both pieces from one place and finds nothing to repair where the display shows that colour, and the client ends without the second piece |
| ReplicaLimits.SplitCanStart | desktop-ipc/UpdateHandlerServer.cpp:176-181 | such a row is there in any two colours |
| EndToEnd.StartsKnown | desktop/UpdateHandlerImpl.cpp:27-51 | a session starts in step and with every stale pixel tracked |
| EndToEnd.ExchangeStaysKnown | desktop-ipc/UpdateHandlerServer.cpp:91-160 | an exchange that is covered and leaves no size untold keeps the replica in step and the stale pixels tracked, whether it ends normally, with a failed grab or with a restart; after a normal ending the client's buffer shows the display outside the missed pixels |
| EndToEnd.RunStaysKnown | desktop-ipc/UpdateHandlerServer.cpp:91-160 | over every session of reports, copies, polls, exclusions, changes of the display and exchanges this is kept |
| EndToEnd.RunShowsDisplay | desktop-ipc/UpdateHandlerClient.cpp:69-166 | in every such session each exchange that ends normally leaves the client's buffer showing the display at every pixel that was not excluded, lost to a failed grab, or not polled since a restart or a change of the display |
| EndToEnd.RunShowsAll | desktop-ipc/UpdateHandlerClient.cpp:69-166 | while nothing is excluded and no size is untold, and once a polling turn followed the last such loss, the client's buffer is exactly the display; that replies are covered is then proved |
| EndToEnd.ExchangeShown | desktop-ipc/UpdateHandlerClient.cpp:69-166 | one exchange between the objects is such a step, and after a normal ending the client's buffer shows the display outside the missed pixels |
| UserInputs.RequestRoundTrip | desktop-ipc/UserInputServer.cpp:76-119 | every request decodes to itself and delimits itself, except a pointer position outside 0..65535, which never arrives as it was |
| UserInputs.AnswerRoundTrip | desktop-ipc/UserInputClient.cpp:104-221 | every answer but the coordinates of a found window decodes to itself |
| UserInputs.WindowCoordsNeverArrive | desktop-ipc/UserInputServer.cpp:165-176 | for every accepted rectangle the client blocks on the server's answer, whatever sign its left edge has |
| UserInputs.AnswerArrivesIff | desktop-ipc/UserInputClient.cpp:164-187 | an answer arrives if and only if it is not a found window |
| UserInputs.RepairedRoundTrip | desktop-ipc/UserInputServer.cpp:165-176 | with the flag written every answer decodes to itself |
| UserInputs.UserInputServer.OnRequest | desktop-ipc/UserInputServer.cpp:76-119 | exactly the request's bytes are read; an event is done once, a question is answered from the desktop, an unknown code is refused |
| UserInputs.UserInputServer.AnswerWindowCoords | desktop-ipc/UserInputServer.cpp:165-176 | a bare rectangle, or a flag and a message |
| UserInputs.UserInputClient.SetMouseEvent | desktop-ipc/UserInputClient.cpp:70-80 | writes the event and keeps the flags for a new connection |
| UserInputs.UserInputClient.SetNewClipboard | desktop-ipc/UserInputClient.cpp:82-91 | writes the clipboard message that the server decodes to the text |
| UserInputs.UserInputClient.SetKeyboardEvent | desktop-ipc/UserInputClient.cpp:93-102 | writes the key event that the server decodes |
| UserInputs.UserInputClient.SendInit | desktop-ipc/UserInputClient.cpp:63-68 | a new server learns the last flags |
| UserInputs.UserInputClient.ReadAnswer | desktop-ipc/UserInputClient.cpp:104-221 | reads what the format of the question's answer says |
| UserInputs.Question | desktop-ipc/UserInputClient.cpp:104-221 | over an idle connection each kind of question brings what its part of the desktop says, but blocks for ever on a found window |
| ReconnectingChannels.ReconnectingChannel.ReplaceChannel | desktop-ipc/ReconnectingChannel.cpp:63-75 | is the replacement step of the state machine, whatever the user's thread is doing |
| ReconnectingChannels.ReconnectingChannel.GetChannel | desktop-ipc/ReconnectingChannel.cpp:77-107 | is the entry step: it throws exactly when a replacement was not noticed yet |
| ReconnectingChannels.ReconnectingChannel.Operate | desktop-ipc/ReconnectingChannel.cpp:109-180 | a read or write, with replacements and a close at every unlocked moment, has the outcome and the new state of the specification, and is a run of the state machine that throws at its end, succeeds at its end, or does neither |
| ReconnectingChannels.OutcomeIs | desktop-ipc/ReconnectingChannel.cpp:77-180 | the outcome of an operation from the replacements and the close alone: it fails on a closed channel, tells of a replacement since the last time, is done on a channel that works, and else waits and fails exactly when no other channel comes before the close or the end of the time |
| ReconnectingChannels.WaitEndsAt | desktop-ipc/ReconnectingChannel.cpp:145-180 | a wait ends at the first unlocked moment after which another channel is the current one, with a ReconnectException if there was a channel and to be called again if there was none |
| ReconnectingChannels.WaitFailsIff | desktop-ipc/ReconnectingChannel.cpp:145-180 | it fails if and only if no such moment comes before the channel is closed or the time is over |
| ReconnectingChannels.ReconnectingChannel.Session | desktop-ipc/ReconnectingChannel.cpp:63-180 | the log of any sequence of operations is that of the specification; between two successful operations on different channels the user was told of a reconnection, however often and whenever channels are replaced |
| ReconnectingChannels.SettlesAtOnce | desktop-ipc/ReconnectingChannel.cpp:77-143 | left alone, an open channel that works fails once at most, and only to tell of a reconnection |
| ReconnectingChannels.NoSilentSwitch | desktop-ipc/ReconnectingChannel.cpp:63-180 | in every interleaving two successes on different channels have a ReconnectException between them |
| ReconnectingChannels.ReconnectsBounded | desktop-ipc/ReconnectingChannel.cpp:63-180 | there are never more such exceptions than replacements of one channel by another |
| ReconnectingChannels.RunConserves | desktop-ipc/ReconnectingChannel.cpp:40-107 | what was passed in is either still held or was deleted once, in the repaired form always, in the code's form while no replacement crowds another |
| ReconnectingChannels.OwnershipHoldsIff | desktop-ipc/ReconnectingChannel.cpp:40-107 | at the end every channel was deleted exactly once if and only if no replacement came before the old channel was cleaned up |
| ReconnectingChannels.CrowdingLeaks | desktop-ipc/ReconnectingChannel.cpp:69-73 | the old channel of the first crowding replacement is never deleted |
| ReconnectingChannels.CrowdingDeletesTwice | desktop-ipc/ReconnectingChannel.cpp:63-75 | every run with a crowding replacement that ends with the destructor deletes some channel twice |
| ReconnectingChannels.TwoInARow | desktop-ipc/ReconnectingChannel.cpp:69-73 | three channels in a row: one is deleted twice, one never |
| ReconnectingChannels.RepairedOwnership | desktop-ipc/ReconnectingChannel.cpp:63-75 | keeping the old channel, every channel is deleted exactly once in every run |
| ReconnectingChannels.NeverDeletedInUse | desktop-ipc/ReconnectingChannel.cpp:69-71 | no step deletes the channel that the user reads or writes, in any run |
| ReconnectingChannels.NeverUsedAfterDeletion | desktop-ipc/ReconnectingChannel.cpp:77-143 | the user never works on a deleted channel, in any run |
| ReconnectingChannels.OldIsDeletedIff | desktop-ipc/ReconnectingChannel.cpp:63-90 | in any run the old channel has been deleted already exactly when the last replacement crowded and nobody has entered since |
| ReconnectingChannels.CloseIsSafeIff | desktop-ipc/ReconnectingChannel.cpp:50-61 | closing works on no deleted channel if and only if that is not so |
| ReconnectingChannels.RepairedCloseIsSafe | desktop-ipc/ReconnectingChannel.cpp:50-61 | keeping the old channel, closing never does |
| Repeaters.AddList | UVNCRepeater/repeater.cpp:390-408 | the entry goes to the first free slot, inactive, or nowhere |
| Repeaters.RemoveList | UVNCRepeater/repeater.cpp:411-424 | the first entry with the code is freed |
| Repeaters.SetActive | UVNCRepeater/repeater.cpp:427-439 | the first entry with the code becomes active |
| Repeaters.FindList | UVNCRepeater/repeater.cpp:442-455 | the first slot with the code, or the index for none |
| Repeaters.AddRepeaterProcList | UVNCRepeater/repeater.cpp:338-351 | the process goes to the first free slot, or nowhere |
| Repeaters.RemoveRepeaterProcList | UVNCRepeater/repeater.cpp:354-368 | the first slot with the pid is freed |
| Repeaters.FindRepeaterProcList | UVNCRepeater/repeater.cpp:373-387 | the first slot with the pid, or the index for none |
| Repeaters.AddedContents | UVNCRepeater/repeater.cpp:390-408 | as a map from codes, an added entry is one more binding |
| Repeaters.RemovedContents | UVNCRepeater/repeater.cpp:411-424 | as a map from codes, removal takes exactly one binding away |
| Repeaters.CodesFit | UVNCRepeater/repeater.cpp:390-408 | a table without free slot holds as many codes as it has slots |
| Repeaters.ProcSlotIsFree | UVNCRepeater/repeater.cpp:338-351 | when a pair forms a process slot is free |
| Repeaters.AcceptViewerKeepsPairedIff | UVNCRepeater/repeater.cpp:1338-1374 | accepting a viewer keeps all sessions paired if and only if there is no room for it or no viewer has its code |
| Repeaters.AcceptServerKeepsPaired | UVNCRepeater/repeater.cpp:1217-1225 | accepting a server keeps all sessions paired: a duplicate is turned away |
| Repeaters.ServerIsAccepted | UVNCRepeater/repeater.cpp:1217-1417 | over the tables as maps: a server with a taken code or without a free slot changes nothing, one without a viewer waits, and for one whose viewer waits both ends become active with one process between their sockets |
| Repeaters.ViewerIsAccepted | UVNCRepeater/repeater.cpp:1338-1374 | the same for a viewer whose code no other viewer has |
| Repeaters.EitherOrderPairs | UVNCRepeater/repeater.cpp:1338-1417 | server then viewer, and viewer then server, lead to the same active ends and the same process between their sockets |
| Repeaters.AcceptMode1KeepsPairedIff | UVNCRepeater/repeater.cpp:1271-1331 | a session with an invented code keeps all others paired if and only if there is room for neither of its ends, or for both and its code is unused |
| Repeaters.AddressIsAccepted | UVNCRepeater/repeater.cpp:1271-1331 | a connection by address takes the next negative code, starting over below a million; each end becomes active if it finds a slot, with a process between them if both do |
| Repeaters.ReapViewerKeepsPaired | UVNCRepeater/repeater.cpp:693-730 | removing an idle viewer by its code takes exactly it away and keeps all sessions paired |
| Repeaters.ReapServerKeepsPaired | UVNCRepeater/repeater.cpp:693-730 | removing an idle server by its code takes exactly it away and keeps all sessions paired |
| Repeaters.ProcExitKeepsPairedIff | UVNCRepeater/repeater.cpp:1548-1597 | the end of a process takes exactly its session away if and only if the exit code is one of the five |
| Repeaters.RunKeepsPaired | UVNCRepeater/repeater.cpp:1140-1614 | over every proper run server codes are distinct, and a server and a viewer with the same code are active with one process between their sockets |
| Repeaters.ActiveServerHasItsPair | UVNCRepeater/repeater.cpp:1140-1421 | slot by slot: an active server has exactly one viewer slot and one process slot with its code, and the viewer is active |
| Repeaters.DuplicateViewerBreaksSession | UVNCRepeater/repeater.cpp:1217-1225 | two viewers with one code: reaping the idle one removes the active one |
| Repeaters.HalfAddedEntryStays | UVNCRepeater/repeater.cpp:1311-1327 | with a full server table an active viewer without server and process stays behind |
| Repeaters.CleanedIsPaired | UVNCRepeater/repeater.cpp:325-335 | the cleaned tables are paired |
| Repeaters.Repeater.AcceptViewerId | UVNCRepeater/repeater.cpp:1338-1374 | is the viewer step |
| Repeaters.Repeater.AcceptServerId | UVNCRepeater/repeater.cpp:1375-1417 | is the server step |
| Repeaters.Repeater.AcceptAddress | UVNCRepeater/repeater.cpp:1271-1331 | is the mode 1 step, with the wrap-around of the invented code |
| Repeaters.Repeater.RemoveOldOrBrokenConnections | UVNCRepeater/repeater.cpp:734-746 | exactly the waiting connections that are gone are freed, slot by slot; the sessions stay paired and no process is touched |
| Repeaters.Repeater.CleanUpAfterRepeaterProcExit | UVNCRepeater/repeater.cpp:1548-1597 | is the exit step |
| Repeaters.Repeater.CleanUpAfterRepeaterProcs | UVNCRepeater/repeater.cpp:1600-1614 | every ended child frees its slot, every running one keeps it, and the sessions stay paired if and only if all that ended did so with one of the five codes |
| Dictionaries.Dictionary.constructor | UVNCRepeater/iniparser.cpp:210-224 | an empty map in at least 128 slots |
| Dictionaries.Dictionary.Get | UVNCRepeater/iniparser.cpp:272-290 | the map's value or the default; a free slot is compared if and only if the hash is 0 and one is met first |
| Dictionaries.Dictionary.Set | UVNCRepeater/iniparser.cpp:318-370 | the map with one binding more or changed; unique keys, matching hashes and the count of used slots are kept |
| Dictionaries.Dictionary.Unset | UVNCRepeater/iniparser.cpp:383-414 | the map without the key |
| Dictionaries.Dictionary.Grow | UVNCRepeater/iniparser.cpp:344-354 | doubling keeps the map |
| Dictionaries.SlotReplaced | UVNCRepeater/iniparser.cpp:318-414 | another key and value in one slot is one binding removed and one added |
| Dictionaries.FullIff | UVNCRepeater/iniparser.cpp:344-362 | as many used slots as slots exactly when no slot is free, so an insertion always finds one |
| Dictionaries.MissingKeyMeetsFreeSlot | UVNCRepeater/iniparser.cpp:272-290 | a missing key meets a free slot exactly when the dictionary has room |
| Dictionaries.RunAndGet | UVNCRepeater/iniparser.cpp:210-414 | over every run of operations, from any size on, a key with a hash other than 0 is looked up as in the map |
| Relays.ServerLosesNothing | UVNCRepeater/repeaterproc.cpp:166-184 | after a partial send to the server exactly the unsent bytes are at the top of the buffer |
| Relays.ViewerLosesNothingIff | UVNCRepeater/repeaterproc.cpp:189-203 | for the viewer exactly after a fair send, or when the bytes happen to repeat |
| Relays.ViewerLosesNothingForAllIff | UVNCRepeater/repeaterproc.cpp:189-203 | for all contents of the buffer if and only if the send is fair |
| Relays.LostByte | UVNCRepeater/repeaterproc.cpp:198-199 | two bytes of three are sent, and the third never is |
| Relays.LimitedIs | UVNCRepeater/repeaterproc.cpp:76-164 | a read takes a front part of what there is, as long as the buffer has room for it |
| Relays.Relay.FlushToServer | UVNCRepeater/repeaterproc.cpp:166-184 | exactly the bytes that the socket took are sent, and exactly the unsent bytes stay; sent and buffered bytes together stay what was received |
| Relays.Relay.FlushToViewer | UVNCRepeater/repeaterproc.cpp:189-203 | exactly the bytes that the socket took are sent; sent and buffered bytes together stay what was received if and only if the send is fair or the bytes repeat |
| Relays.Relay.Turn | UVNCRepeater/repeaterproc.cpp:76-204 | one turn is the step of the specification: bytes in, sent and held, fairness, and the code of the first thing that ended or failed |
| Relays.DoRepeater | UVNCRepeater/repeaterproc.cpp:54-205 | the two buffers, all bytes received and sent and the return value are those that the rounds lead to in turn; the server gets a prefix of what the viewer sent, and the viewer one of what the server sent if every send was fair |
| Relays.RunMovesAll | UVNCRepeater/repeaterproc.cpp:54-205 | over every run all that the sockets deliver is read, and as many bytes are sent as the sockets took, in either direction |
| Relays.WillingSocketsGetAll | UVNCRepeater/repeaterproc.cpp:54-205 | if every send takes all that it is offered, either peer has got everything that the other one sent after each round |
| Relays.ExitIsTheFirst | UVNCRepeater/repeaterproc.cpp:48-134 | the return value is the code, 1 to 5, of the first round that has one, and 0 while none has |
| Relays.ExitNames | UVNCRepeater/repeaterproc.cpp:48-134 | each return value names what ended the loop, a failed select before the server's side before the viewer's; a reset by the server goes on |
| Relays.FairIff | UVNCRepeater/repeaterproc.cpp:186-204 | a run is fair exactly when every send to the viewer was |
| Relays.ServerGetsAPrefix | UVNCRepeater/repeaterproc.cpp:136-184 | over every run sent and held bytes together are what the viewer sent, and no byte for the viewer is lost count of |
| Relays.ViewerGetsAPrefixIff | UVNCRepeater/repeaterproc.cpp:186-204 | whatever bytes the server sends in the same rounds, sent and held bytes together are what it sent, if and only if every send was fair |
| CursorUpdaters.RestoreUndoes | fb-update-sender/CursorUpdates.cpp:129-136 | restoring undoes whatever happened in the rectangle since it was saved, and nothing else |
| CursorUpdaters.DrawThenRestore | fb-update-sender/CursorUpdates.cpp:129-162 | drawing and restoring is the identity, for every position, hot spot and mask |
| CursorUpdaters.OverlayStaysInside | fb-update-sender/CursorUpdates.cpp:154-161 | all drawn pixels lie in the background rectangle |
| CursorUpdaters.CursorUpdates.DrawCursor | fb-update-sender/CursorUpdates.cpp:138-162 | the old background becomes dirty, the new one is saved before the shape goes on top |
| CursorUpdaters.CursorUpdates.RestoreFrameBuffer | fb-update-sender/CursorUpdates.cpp:129-136 | the saved background comes back into its rectangle |
| CursorUpdaters.CursorUpdates.DrawAndRestore | fb-update-sender/CursorUpdates.cpp:129-162 | both in turn leave the buffer as it was, also when the pixel formats differ |
| CursorUpdaters.CursorUpdates.CheckCursorPos | fb-update-sender/CursorUpdates.cpp:164-194 | the position becomes the nearest one of a view port that is not empty; a blocked or unchanged position is not told |
| Clipboards.ConvertToRfbFormat | desktop/WindowsClipboard.cpp:177-194 | drops each carriage return before a line feed |
| Clipboards.ConvertFromRfbFormat | desktop/WindowsClipboard.cpp:196-223 | puts one before each line feed, and fills its array exactly |
| Clipboards.ToAfterFrom | desktop/WindowsClipboard.cpp:177-223 | from the peer and back is the identity on every text, also with stray carriage returns |
| Clipboards.FromAfterToIff | desktop/WindowsClipboard.cpp:177-223 | the other order is the identity if and only if every line feed has its carriage return |
| Clipboards.PairGoesOutIff | desktop/WindowsClipboard.cpp:177-194 | a carriage return before a line feed still goes out if and only if the text has two of them before a line feed |

## Left out

- Regions.GetRectVector: the 16-bit coordinates of the region library and the clamp of a right edge to 32767; and how it keeps its lists in this form, which its own comments promise.
- FrameBuffers.FrameBuffer.Overlay: the source offset is 0, as in its only use, and the mask is a function instead of packed bits.
- UpdateKeepers.UpdateKeeper.AddUpdateContainer: locks and the listeners that are notified; every call is atomic.
- GrabOptimizators.GrabOptimizator.Grab: doubles are reals, and timer and clocks say anything, so that resetting the timer is left out; on a screen without area the averages that are not numbers compare as false.
- GrabOptimizators.GrabOptimizator.GrabOneRect: what is in the grabbed rectangle after a failed grab, and any refresh outside the requested rectangle.
- UpdateHandlers.UpdateHandler.Extract: grabbing the cursor shape, and the wait between tries; a thrown exception ends the run.
- UpdateHandlers.UpdateHandler.ApplyNewScreenProperties: the display counts as it is at the last try, and a change of it between the tries as one before the first; the pixels of the new work buffer are unknown until they are grabbed.
- FilterMeaning.StepAsImages: the translation of the container into a viewer's view port.
- EndToEnd.RunShowsDisplay: a grab from a display that has other properties than the work buffer; the driver is taken to report such properties first.
- Pipeline.RunKeepsTracked: changes of the screen's properties; a run lies between two of them.
- Pipeline.ExtractionCatchesUp: a screen copy counts as reported when the driver's next copy rectangle covers it and lands, or hits dirty pixels only.
- Codec.RectRoundTrip: overflow of a 32-bit edge that is computed from a received corner and size.
- Codec.TextRoundTrip: the conversion between wide characters and UTF-8; text is its bytes.
- ReplicaSessions.Exchange: the request bytes of the update channel, property requests and the retry after a ReconnectException; a reply that holds a rectangle outside the accepted range ends the session.
- Replica.UpdateHandlerClient.Receive: a cursor shape with a negative dimension, and the mask size that the client computes from an old dimension; of a video region or shape that breaks off nothing is handed out.
- UserInputs.Question: the retry loops around a ReconnectException and the clipboard message of the server, which has the form of the client's.
- ReconnectingChannels.ReconnectingChannel.Operate: several users of one channel; the bytes of a read or write; what closing the underlying channels does to an operation, which is part of whether it works; which channels are closed is in CloseIsSafeIff.
- ReconnectingChannels.NoSilentSwitch: a new channel at the address of a deleted one counts as a different channel.
- Repeaters.Repeater.AcceptViewerId: sockets, handshakes, id lists, parsing of ids, time stamps, and a fork that fails, which ends the program.
- Repeaters.RunKeepsPaired: steps that are not proper, each of which has its exact condition or a lemma of its own.
- Dictionaries.Dictionary.Get: the hash function is any function; parsing and writing of ini files.
- Relays.DoRepeater: select, descriptors, a select that waits for ever because both buffers are full, and the copying of overlapping memory, which counts as a move.
- CursorUpdaters.CursorUpdates.DrawCursor: the flags of the update function around it and a cursor shape that was never set.
- Windows, DirectX, hook and mirror drivers, settings, logging, services, the update sender and the bundled libraries are not part of this model.
