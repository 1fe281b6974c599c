# AmberSSH verification model

AmberSSH is a Windows terminal and VNC client. This project models the parts of it that are state machines, allocators,
caches and parsers, and proves what they promise over every input, run or interleaving. The operating system and the GPU
are small environments: a fence value completes, a range is copied, a raster arrives, a lock is held, a poll answers.

Each module holds a model on values (functions) with its theorems. Where the program changes things step by step there is
also a method or class that does the same with loops and fields and is proved against those functions.

| file | what it models |
|---|---|
| UploadRing.dfy, FrameFence.dfy | the spill-over upload allocator, and three frames in flight behind a GPU fence |
| CellMirror.dfy | the terminal grid's CPU shadow, its birth planning, and the GPU copy kept by coalesced ranges |
| GlyphAtlas.dfy, ColorWorker.dfy | the shelf-packed glyph atlas, and the mailbox to the colour rasteriser thread |
| FrameQueue.dfy | the reader thread, queue and event between the X host and the session loop |
| XAuth.dfy, XSetup.dfy | the .Xauthority file, hex cookies, and the streaming rewrite of the X11 connection setup |
| XFraming.dfy | an X client cutting its channel into messages, keeping events, and sending requests |
| ShellSplit.dfy, BlastRadius.dfy, RiskRules.dfy | the command tokenizer, the risk analyser behind it, and the rules its families share |
| Utf8.dfy | the UTF-8 encoder, the permissive decoder and the clip |
| Arithmetic.dfy, Wrappers.dfy | the maximum, the option type and a few products, shared by the rest |
| Bits.dfy, SigilHash.dfy, HostSigil.dfy | FNV-1a, splitmix64 and the figure drawn from a host key |
| DesktopBudget.dfy, DesktopDamage.dfy | the particle budget of a remote desktop, and the upload of its damage |
| HeldInput.dfy | what a VNC tab holds down on the far side |

`dafny verify dfyconfig.toml` checks everything.

## Where the code and its promises part

Each of these is a theorem about the code as it is: a run or an input where the promise fails, and exactly when it holds.

- HeldInput: a key pressed after the link comes up and before the window has taken the news of it is down on the far side
  and in no record, because the news clears the record. Releasing everything then sends nothing for it, and a desktop turned
  view-only goes on holding it (`EarlyPress`). It stays so, over any run, exactly until its own key is pressed or released
  again where the handler acts on it, Ctrl+Alt+Del is sent and it is one of the three, or the connection ends
  (`LostThroughoutIff`). `StepKeepsInvIff` says that this news is the only step after which the record no longer covers the
  far side. What was pressed on an earlier connection does not cross over, because every turn of the
  handshake throws the queue away (`NothingCrossesOver`).
- HeldInput: the comment at src/app_vnc.cpp:508 says the keysym that was pressed is released whatever the modifiers are.
  `UpAgainIff` says when it is: the release must not come under Ctrl+Shift, which the window keeps for itself, and must
  name the same side. A right Shift, Control or Alt is named as the left one on its way up.
- HeldInput: the comment at src/app_vnc.cpp:539-541 says that the far side gets the letter of a Ctrl+letter. It does for all
  but five (`ControlLetterIsTypedIff`). Ctrl+V is the application's own; Ctrl+H, I, J and M arrive as the characters of
  Backspace, Tab and Enter, are taken to have gone out as keys, and did not (`LostLettersAreNoKeys`).
- BlastRadius: the report says that only the first command of a chain was examined (src/security/BlastRadius.cpp:511).
  `TailChangesNothingIff` says for which commands that is so: those whose program is read by its arguments, and those that
  hold the statement looked for first. After any other, a database client among them, the whole line is searched.
- BlastRadius: the comment at src/security/BlastRadius.cpp:530 says that assignments before a command are walked past. They
  are exactly when the value holds no slash (`BehindAssignment`); with one the assignment is taken for the program, and a
  delete of everything behind it goes without a finding (`DeleteIsHidden`).
- Utf8: the comment at src/sessions/CommandBlocks.cpp:12-14 says that malformed text is replaced rather than truncated. A
  character that announces more bytes than are left takes all that is left with it, whatever it is (`CutShortIff`,
  `LettersAreSwallowed`).
- ColorWorker: a rebuild empties the map and not the mailbox, so a bitmap asked for before it can be filed at the old size
  after it (`OldSizeIsFiled`). After a rebuild to another size than that of the bitmap in flight, the atlas holds a square of
  the wrong size exactly when that bitmap has been published as drawn and then polled (`OldSizeIsFiledIff`); after any other
  rebuild it never does (`CurrentSizeOtherwise`).

## Limits

These are facts about the functions by themselves, with their exact conditions, for inputs that no caller in the repository
is known to pass.

- ColorWorker: code point 0 doubles as "idle"; accepting it is the one step that puts the mailbox out of order
  (`StepKeepsInvIff`). The only caller asks for cells with ink, so never for it (`ScreenIsSafe`).
- GlyphAtlas: the width of a raster is not checked again after a row wrap; a placed glyph lies in the atlas exactly when it
  is narrower than the atlas (`InsideIffNarrow`). How wide rasters get is not modelled.
- XFraming: the size of a message is computed in 32 bits, and is the protocol's exactly when the length field is below
  0x3FFFFFF8 (`SizeIsTheProtocolsIff`). The field is the peer's to choose; a message of that length would be four gigabytes.
- ShellSplit: a backslash and a newline are kept, bare or in double quotes, where section 2.2 of the POSIX Shell Command
  Language drops them as a line continuation; for every other quoting the words are the same (`SplitIsPosixIff`). What is
  analysed is cut at every newline first or lifted off the screen row by row, so it never holds one (`OneLineIsPosix`).
  Only quoting is compared: which white space separates words, and that a bare newline ends a command, are section 2.3.
- DesktopBudget: an adapter that reports between 1 and 63 bytes of memory gives a budget of nothing (`BudgetIsNothingIff`).
  The loop then ends with an empty layout at the first stride whose 32-bit sum wraps (`Configure`), except for a desktop of
  one pixel, for which no stride stops it (`SomeStrideStopsIff`). It is the type that allows such an adapter.
- Utf8: the encoder takes any 32-bit value, and exactly those below 2^21 come back (`RoundTripIff`). A clip to nothing still
  leaves the ellipsis (`Clip`); the function is private to its file and called with 90, 120 and 80.

The comment at src/security/BlastRadius.cpp:212-213 speaks of levels that a path walks out of itself. What is counted is pairs
of neighbouring dots: four levels of climbing always count as a root (`ClimbingOutIsRoot`), and so does a name that ends in five
dots (`FiveDotsAreRoot`).

The comment at src/security/HostSigil.cpp:94-95 says that nodes cannot collide or leave the box. Both are proved of their
centres: they are more than 0.11 apart (`NodesNeverMeet`) and inside the box (`FiguresAreWellDrawn`). A disc's radius, below
0.09, comes on top: by the same ranges a disc reaches less than 0.01 past the border. Nothing is said about discs overlapping.

## Model

| member | source | states |
|---|---|---|
| UploadRings.AlignUpIsLeast | src/common.h:49 | aligning gives the least multiple of the alignment that is not below the offset |
| UploadRings.Want | src/dx/frame.cpp:74-76 | doubling from the block size stops at a size that fits the request and is the block size or less than twice what was needed |
| UploadRings.WantIsDoubled | src/dx/frame.cpp:74-76 | that size is the block size doubled as few times as will do |
| UploadRings.Seek | src/dx/frame.cpp:70-83 | the first later block large enough, every block before it too small |
| UploadRings.AllocSafe | src/dx/frame.cpp:65-93 | one allocation ends, adds at most one block, keeps the blocks there were, and its range is aligned, inside its block and apart from everything the cursor has passed; it fails only when the driver gives no block |
| UploadRings.GrowsOnlyWhenNothingFits | src/dx/frame.cpp:65-93 | a block is made or refused exactly when neither the current block nor any later one holds the request |
| UploadRings.ServedApart | src/dx/frame.cpp:65-93 | all ranges served since a reset are pairwise disjoint, aligned, in bounds, and disjoint from everything before |
| UploadRings.ReplayAllocatesNothing | src/dx/frame.h:7-12 | the steady state: after Reset the same requests land in the same blocks and offsets and no block is made |
| UploadRings.ServeWithBlocks | src/dx/frame.h:7-12 | having more blocks than a run made changes no placement of that run |
| UploadRings.SearchMoves | src/dx/frame.cpp:70-83 | each turn of the walk leaves a block that is too small, for the next or for one new block, and a refusal there is the whole allocation's answer |
| UploadRings.SearchEnds | src/dx/frame.cpp:84-92 | when the walk stops, the range at its cursor is where the allocation was to land |
| UploadRings.UploadRing.constructor | src/dx/frame.cpp:54-63 | a ring of one block, empty |
| UploadRings.UploadRing.Reset | src/dx/frame.h:18 | the cursor goes back to the start and every block is kept |
| UploadRings.UploadRing.SizeFor | src/dx/frame.cpp:74-76 | the doubling loop computes Want |
| UploadRings.UploadRing.Allocate | src/dx/frame.cpp:65-93 | the block walk, block creation and bump land the request where Alloc says, and leave the ring as Alloc says |
| FrameFence.BeginKeepsInv | src/dx/device.cpp:257-268 | beginning a frame, once its slot's fence value is reached, resets a ring nobody can be reading any more |
| FrameFence.AllocateKeepsInv | src/dx/frame.cpp:65-93 | a range handed to the frame being recorded is apart from that frame's others |
| FrameFence.EndKeepsInv | src/dx/device.cpp:336-339 | submitting gives the slot a fresh fence value and moves to the next |
| FrameFence.StepKeepsInv | src/dx/device.cpp:257-361 | every CPU call and every GPU completion keeps the invariant of slots, fence values and ring cursors |
| FrameFence.InvIsSafe | src/dx/device.cpp:257-268 | under the invariant no two live ranges share a byte and at most three submitted frames are unfinished, two while another is recorded |
| FrameFence.FramesNeverShareMemory | src/dx/device.cpp:257-361 | in every interleaving of BeginFrame, Allocate, EndFrame and WaitIdle with fence completions, memory a submitted unfinished frame may read is never handed out again |
| FrameFence.SteadyState | src/dx/frame.h:7-12 | a frame that was granted all it asked for, then any run that begins no frame of its slot, then the slot's next frame asking for the same: it is handed the same ranges and its ring gains no block, whether or not the driver would still grant one |
| FrameFence.BeginIsNeverStuck | src/dx/device.cpp:259-265 | a BeginFrame that waits is waiting for a value the GPU was told to signal, and goes on when it is reached |
| FrameFence.IdleDrains | src/dx/device.cpp:342-352 | after WaitIdle nothing submitted is unfinished |
| FrameFence.FrameDevice.constructor | src/dx/device.cpp:257-268 | three rings and three slots at fence value zero |
| FrameFence.FrameDevice.WaitForFence | src/dx/device.cpp:260-265 | returns with the fence at or past the value and never moves it back |
| FrameFence.FrameDevice.BeginFrame | src/dx/device.cpp:257-268 | waits for the slot's value, then resets that slot's ring only |
| FrameFence.FrameDevice.Allocate | src/dx/frame.cpp:65-93 | allocates from the ring of the frame being recorded only |
| FrameFence.FrameDevice.WaitIdle | src/dx/device.cpp:342-352 | signals one more value and returns with it reached |
| CellMirror.DiffFollowsTheGlyph | src/render/particles.cpp:485-516 | the diff shows what was asked for; birth, previous glyph and quiet bit change only when the glyph does |
| CellMirror.DiffSettles | src/render/particles.cpp:485-516 | showing the same screen again changes no cell |
| CellMirror.TallyAddsUp | src/render/particles.cpp:278-308 | changes and anchors are separate cells among those with ink, and matches are among the changes |
| CellMirror.VerdictsIff | src/render/particles.cpp:310-323 | the three verdicts as shares of the ink and of the cells checked |
| CellMirror.BulkLosesItsAnchors | src/render/particles.cpp:310-323 | a screen judged a bulk repaint kept fewer than a third of its ink as anchors |
| CellMirror.ScrollIsCalm | src/render/particles.cpp:310-348 | a screen that moved up a line is never swept: all of its changed cells appear at the frame's own time |
| CellMirror.RevealSweepsDown | src/render/particles.cpp:342-348 | no changed cell appears before its frame, a row appears at once, and no row before one above it |
| CellMirror.SweepsIff | src/render/particles.cpp:325-340 | the delay between rows is above nothing exactly for a repaint that is no scroll, without reduced motion; all rows together then take seven tenths of a second, scaled by style and speed |
| CellMirror.BornInTime | src/render/particles.cpp:325-348 | a changed cell appears with its frame unless the screen sweeps, and then within the time of the sweep |
| CellMirror.RowsInOrder | src/render/particles.cpp:342-348 | in a sweep every row appears strictly later than each row above it |
| CellMirror.KeptScreenIsCalm | src/render/particles.cpp:310-323 | with few changes, or enough still ink, changed cells appear with their frame |
| CellMirror.NothingKeptIsBulk | src/render/particles.cpp:310-323 | when no ink is kept the screen is a bulk repaint exactly with more than fifty changes |
| CellMirror.OpensAtCluster | src/render/particles.cpp:517-527 | a new range is opened exactly at a dirty cell with sixteen clean ones before it |
| CellMirror.ScanIsGood | src/render/particles.cpp:461-531 | part way through a frame the ranges are one per cluster seen, in order, more than sixteen apart, and cover every dirty cell unless there were too many |
| CellMirror.CoalescedRanges | src/render/particles.cpp:461-531 | the ranges of a frame: one per cluster, sorted, more than 16 apart, at most 64, covering the dirty cells; full upload exactly when one was due or there are more than 64 clusters |
| CellMirror.CountIsSize | src/render/particles.cpp:461-531 | the dirty count is the number of dirty cells |
| CellMirror.PasteAllAt | src/render/particles.cpp:547-558 | after the range copies a cell is the shadow's inside a range and the old one outside |
| CellMirror.IncrementalEqualsFull | src/render/particles.cpp:533-559 | copying only the coalesced ranges leaves the GPU exactly as copying everything would |
| CellMirror.ParticleRenderer.constructor | src/render/particles.h:193-201 | nothing shown yet and a full upload due |
| CellMirror.ClampWithin | src/render/particles.cpp:164-194 | a density outside its range is brought to the nearer end |
| CellMirror.ParticleRenderer.EnsureGrid | src/render/particles.cpp:164-194 | the same grid and density change nothing; a density change keeps every cell; a grid change starts blank; every change makes a full upload due |
| CellMirror.ParticleRenderer.Reset | src/render/particles.h:149-152 | a full upload becomes due and no cell changes; the instant form also settles the next births |
| CellMirror.ParticleRenderer.PlanBirths | src/render/particles.cpp:254-349 | every cell is long born after an instant reset; otherwise unchanged cells keep their birth, changed ones get the frame's time plus the sweep of their row, and the bulk, scroll and wave verdicts follow the counts |
| CellMirror.ParticleRenderer.CountChanges | src/render/particles.cpp:286-308 | the counting loop computes the tally |
| CellMirror.ParticleRenderer.Sweep | src/render/particles.cpp:325-340 | no sweep but for a repaint that is not a scroll, and none under reduced motion |
| CellMirror.ParticleRenderer.FillPlan | src/render/particles.cpp:342-348 | the plan is filled cell by cell |
| CellMirror.ParticleRenderer.Simulate | src/render/particles.cpp:442-595 | after every frame the GPU holds the shadow, the shadow is the diff of every cell against the screen, and the dirty count is exact; too short a screen changes nothing |
| CellMirror.ParticleRenderer.DiffScreen | src/render/particles.cpp:485-531 | the diff loop rewrites the shadow in place and its scan is that of exactly the cells that changed |
| CellMirror.ParticleRenderer.DiffCell | src/render/particles.cpp:485-516 | one cell becomes its diff and is reported changed exactly when it is different |
| CellMirror.ParticleRenderer.Upload | src/render/particles.cpp:533-559 | either way of copying leaves the GPU with the whole new shadow |
| CellMirror.ParticleRenderer.CopyRanges | src/render/particles.cpp:547-558 | the copy loop pastes each range |
| GlyphAtlas.PlaceSafe | src/glyphs/sampler.cpp:772-803 | a rectangle placed has its raster's size, is two pixels from everything behind the cursor, and joins it |
| GlyphAtlas.InsideIffNarrow | src/glyphs/sampler.cpp:772-785 | a placed rectangle lies inside the atlas exactly when the raster is narrower than the atlas |
| GlyphAtlas.GridFills | src/glyphs/sampler.cpp:772-803 | glyphs of one size fill the atlas as a grid from the top left, each at its place, and exactly those past the last place are refused |
| GlyphAtlas.AllFitIff | src/glyphs/sampler.cpp:772-803 | glyphs of one size all fit exactly when there are no more of them than columns times rows |
| GlyphAtlas.GoesWhere | src/glyphs/sampler.cpp:774-785 | for mixed sizes: a glyph goes on the row if it leaves a column free there, otherwise below the tallest of the row, and is refused exactly when its height leaves no line free there |
| GlyphAtlas.AlwaysFilling | src/glyphs/sampler.cpp:772-803 | after any lookups there is such a row: its glyphs start at the left edge, two pixels apart, and every other glyph is above it |
| GlyphAtlas.AddKeepsPacked | src/glyphs/sampler.cpp:695-804 | adding a glyph keeps all rectangles in the atlas and pairwise two pixels apart, and it is in the map exactly when it was not refused |
| GlyphAtlas.LookupsKeepPacked | src/glyphs/sampler.cpp:842-854 | so does any sequence of lookups after a rebuild |
| GlyphAtlas.AnswerKept | src/glyphs/sampler.cpp:842-854 | a glyph placed keeps its entry and a glyph refused stays refused, whatever is looked up later |
| GlyphAtlas.AnswerNeverChanges | src/glyphs/sampler.cpp:842-854 | until the next rebuild asking again gives the same answer |
| GlyphAtlas.HoldsElsewhere | src/glyphs/sampler.cpp:786-798 | a write inside one rectangle leaves the pixels of every rectangle two pixels away as they were |
| GlyphAtlas.DrawnOneMore | src/glyphs/sampler.cpp:772-803 | after a glyph is written every packed glyph's pixels are exactly its own raster |
| GlyphAtlas.GlyphSampler.constructor | src/glyphs/sampler.h:20-21 | no atlas yet |
| GlyphAtlas.GlyphSampler.Blit | src/glyphs/sampler.cpp:786-798 | the rows land in the rectangle and no other byte changes |
| GlyphAtlas.GlyphSampler.AddAtlasGlyph | src/glyphs/sampler.cpp:695-804 | packs or refuses as Add says, and afterwards every packed glyph still holds exactly its raster |
| GlyphAtlas.GlyphSampler.EnsureAtlas | src/glyphs/sampler.cpp:806-834 | a matching size changes nothing; otherwise a new atlas holds the preloaded glyphs |
| GlyphAtlas.GlyphSampler.Preload | src/glyphs/sampler.cpp:818-821 | the preload loop adds each glyph as a lookup would |
| GlyphAtlas.GlyphSampler.AtlasForLazy | src/glyphs/sampler.cpp:842-854 | answers as Lazy says, bumping the version exactly when something was added |
| GlyphAtlas.GlyphSampler.Invalidate | src/glyphs/sampler.cpp:207-214 | the map is dropped, the pixels stay, and the next use rebuilds |
| ColorWorker.StepKeepsInvIff | src/glyphs/sampler.cpp:894-1101 | every critical section of either thread keeps one rasterisation outstanding exactly when one is in flight, for the code point in flight, and everything filed under what it was drawn for; except exactly the accepting of code point 0 |
| ColorWorker.InOrderIff | src/glyphs/sampler.cpp:894-1101 | over any interleaving the mailbox is in order throughout exactly when code point 0 is never accepted |
| ColorWorker.MailboxSafe | src/glyphs/sampler.cpp:894-1101 | in every interleaving that never asks for code point 0 the mailbox is in order at the end |
| ColorWorker.ScreenIsSafe | src/app.cpp:2501-2531 | what the screen asks for is a cell with ink, so for it the mailbox is in order in every interleaving |
| ColorWorker.SecondClearingDiscardsNothing | src/glyphs/sampler.cpp:995-1003 | the worker's second clearing of the request flag finds it already down |
| ColorWorker.RequestIsAnsweredIff | src/glyphs/sampler.cpp:1085-1101 | in any run without a rebuild an accepted request is filed, with the bitmap asked for, exactly when the run holds its taking, its publishing and the next poll in this order |
| ColorWorker.FreshUnlessRebuiltInFlight | src/glyphs/sampler.cpp:825-833 | the sizes of what is filed and of what is in flight, taken together, stay current in every step but one: a rebuild to another size while a bitmap is in flight |
| ColorWorker.OldSizeIsFiledIff | src/glyphs/sampler.cpp:825-833 | after such a rebuild, in any run until the next: the bitmap in flight is filed exactly when it is published and polled, at its own size if drawn, and the atlas holds a square of another size than the current one exactly then |
| ColorWorker.CurrentSizeOtherwise | src/glyphs/sampler.cpp:825-833 | after a rebuild with nothing in flight, or a bitmap of the new size, no run until the next rebuild files a square of another size |
| ColorWorker.OldSizeIsFiled | src/glyphs/sampler.cpp:825-833 | a run that files a square of twenty pixels while the raster size is forty |
| ColorWorker.ColorMailbox.constructor | src/glyphs/sampler.cpp:864-871 | an idle mailbox |
| ColorWorker.ColorMailbox.PollColorResults | src/glyphs/sampler.cpp:1009-1067 | the render thread files a finished bitmap under the code point in flight |
| ColorWorker.ColorMailbox.FileBitmap | src/glyphs/sampler.cpp:1028-1066 | a failure or a full atlas is remembered as an entry without pixels, anything else is packed |
| ColorWorker.ColorMailbox.ColorAtlasForLazy | src/glyphs/sampler.cpp:1069-1101 | a lookup polls, answers from the map, and asks only when nothing is outstanding |
| FrameQueue.LookKeepsInv | src/amberx/AmberXController.cpp:645-665 | a look delivers the oldest frame exactly when there is one and reports nothing exactly when the event is low |
| FrameQueue.StepKeepsInv | src/amberx/AmberXController.cpp:594-672 | every locked section of either thread keeps the invariant |
| FrameQueue.QueueSafe | src/amberx/AmberXController.cpp:594-672 | in every interleaving, frames delivered then queued are the frames read, the event is high exactly when a frame waits or the reader ended, and an end is reported only after every frame |
| FrameQueue.FramesGetThrough | src/amberx/AmberXController.cpp:594-672 | any frames the pipe delivers from the start are handed out, all and in order, by as many polls |
| FrameQueue.EveryPollReports | src/amberx/AmberXController.cpp:638-671 | over any run every poll reports exactly once, but for the one in progress |
| FrameQueue.PollCanEnd | src/amberx/AmberXController.cpp:638-671 | a poll in progress can always be finished, and then another begun |
| FrameQueue.WokenPollNeverTimesOut | src/amberx/AmberXController.cpp:641-671 | a poll woken by the event never reports Timeout |
| FrameQueue.ReaderKeepsEventHigh | src/amberx/AmberXController.cpp:594-623 | nothing but a poll lowers the event |
| FrameQueue.EndIsFinal | src/amberx/AmberXController.cpp:663-664 | once an end has been reported every later poll reports the same one |
| FrameQueue.AverageWithinMaximum | src/amberx/AmberXController.cpp:679-690 | the average pickup latency reported never exceeds the maximum |
| FrameQueue.Reader.constructor | src/amberx/AmberXController.cpp:594-600 | an empty queue with the event low |
| FrameQueue.Reader.ReaderTurn | src/amberx/AmberXController.cpp:601-621 | one turn of the reader is the step its pipe result calls for, and the thread goes on exactly while it is running |
| FrameQueue.Reader.Look | src/amberx/AmberXController.cpp:645-665 | the locked part of a poll, its result and its frame |
| XAuth.HexRoundTrip | src/remote/XAuth.cpp:76-103 | bytes to hex and back are the same bytes |
| XAuth.UnHexRoundTrip | src/remote/XAuth.cpp:76-103 | hex to bytes and back is the same text in lower case |
| XAuth.BytesToHex | src/remote/XAuth.cpp:76-87 | the loop writes two digits a byte |
| XAuth.HexToBytes | src/remote/XAuth.cpp:89-103 | the bytes of a hex text, and nothing for any other |
| XAuth.CookieEqual | src/remote/XAuth.cpp:105-115 | true exactly for equal cookies that are not empty |
| XAuth.ParsedIsThere | src/remote/XAuth.cpp:118-155 | on any bytes, the entries read are how the file begins when written back |
| XAuth.ParsedGrows | src/remote/XAuth.cpp:118-155 | more bytes never change an entry already read |
| XAuth.PartIsNoEntry | src/remote/XAuth.cpp:118-155 | no proper prefix of an entry reads as an entry |
| XAuth.PrefixParses | src/remote/XAuth.cpp:118-155 | any prefix of a written file reads as exactly the leading entries that fit in it |
| XAuth.FileRoundTrip | src/remote/XAuth.cpp:118-155 | a written file reads back as its entries |
| XAuth.TakeU16 | src/remote/XAuth.cpp:122-130 | a big-endian length, or failure exactly when two bytes are not left |
| XAuth.TakeBlock | src/remote/XAuth.cpp:131-139 | a counted block, or failure exactly when it is not all there |
| XAuth.TakeEntry | src/remote/XAuth.cpp:140-153 | an entry from its five parts, or failure exactly when one is not all there |
| XAuth.ParseXAuthority | src/remote/XAuth.cpp:118-155 | the cursor loop reads the entries Parsed says |
| XAuth.CookieForDisplay | src/remote/XAuth.cpp:157-177 | the cookie of the first entry with this display, this protocol and sixteen bytes, and nothing when there is none |
| XAuth.DecimalInjective | src/remote/XAuth.cpp:157-177 | display numbers are written the same exactly when they are the same |
| XAuth.DecimalReads | src/remote/XAuth.cpp:157-177 | a display number is written in decimal digits without a leading zero and reads back |
| XSetup.HeaderParses | src/remote/XAuth.cpp:180-202 | a packet's header reads back as its own numbers in either byte order |
| XSetup.Pad4IsLeast | src/remote/XAuth.cpp:19 | padding gives the least multiple of four that is not below the length |
| XSetup.PacketOkIff | src/remote/XAuth.cpp:180-203 | a packet is well formed exactly when its fields fit sixteen bits and the pads have the lengths that make each part a multiple of four |
| XSetup.OrdinaryPacket | src/remote/XAuth.cpp:204-253 | the packet clients send, in either byte order, with its sixteen bytes of cookie behind two of padding: the cookie is replaced and nothing else changes |
| XSetup.PacketLayout | src/remote/XAuth.cpp:204-253 | name and cookie lie where the header says, padded to four |
| XSetup.WholePacket | src/remote/XAuth.cpp:204-253 | what becomes of any whole packet: passed on, cookie replaced, or rejected |
| XSetup.DecidedIsPacket | src/remote/XAuth.cpp:180-253 | every input as long as its header says is some packet with something behind it |
| XSetup.DecisionStands | src/remote/XAuth.cpp:204-253 | a verdict other than NeedMore is unchanged by more bytes, which go straight through |
| XSetup.OneDecisionPoint | src/remote/XAuth.cpp:204-253 | however a stream is cut, the decision falls at one point of it |
| XSetup.PassedOnIff | src/remote/XAuth.cpp:204-253 | something is passed on exactly for a setup packet with the right protocol and the expected cookie, and it is that packet with the cookie put in |
| XSetup.RewriteSwapsBack | src/remote/XAuth.cpp:237-253 | with sixteen-byte cookies only the cookie field changes, the header stays, and rewriting back with the cookies swapped gives the original |
| XSetup.RewriteSetup | src/remote/XAuth.cpp:204-253 | the method decides as Rewrite |
| XFraming.SizeIsTheProtocolsIff | src/amberx/PreviewClient.cpp:189-195 | the size computed in 32 bits, product and sum, is the protocol's exactly when the length field is below 0x3FFFFFF8 |
| XFraming.SentBitIsIgnored | src/amberx/PreviewClient.cpp:230-262 | the bit that marks a sent event changes nothing about what a message is; code 0 is an error, 1 a reply, every other an event |
| XFraming.EventNamesItsWindow | src/amberx/PreviewClient.cpp:230-243 | the window is read behind eight, four or no bytes more, by the kind of event |
| XFraming.RecvKeepsTheStream | src/amberx/PreviewClient.cpp:138-168 | receiving loses no byte and reorders none, whatever frames and timeouts come between |
| XFraming.NextFrames | src/amberx/PreviewClient.cpp:181-201 | a message pulled is the first of the stream; a failed pull consumes nothing |
| XFraming.NextFindsIff | src/amberx/PreviewClient.cpp:181-201 | without a timeout or closing in the way a message is found exactly when the stream has a whole one |
| XFraming.RecvGetsIff | src/amberx/PreviewClient.cpp:138-168 | a receive gets its bytes exactly when they are buffered or arrive before the channel first says nothing or closes |
| XFraming.CutsThenFramed | src/amberx/PreviewClient.cpp:181-201 | messages cut off one by one are the framing of the whole stream |
| XFraming.ArrivalDoesNotMatter | src/amberx/PreviewClient.cpp:138-201 | one stream delivered in different frames, with different timeouts, to clients waiting for different things gives the same messages |
| XFraming.AwaitFindsTheFirst | src/amberx/PreviewClient.cpp:204-271 | a wait answers with the first message read that was wanted, queues in order every event read before it, and moves nothing else |
| XFraming.AnswersIff | src/amberx/PreviewClient.cpp:204-225 | a message answers a request exactly when it is a reply with the low sixteen bits of its number |
| XFraming.IsAwaitedIff | src/amberx/PreviewClient.cpp:230-271 | an event is the one waited for exactly when it is of that kind and names that window, or any will do |
| XFraming.AwaitFindsWhatComes | src/amberx/PreviewClient.cpp:204-271 | with nothing in the way, the first wanted message of the stream is found as soon as there are turns enough |
| XFraming.LedgerGives | src/amberx/PreviewClient.cpp:245-254 | handing out a queued event moves that one from the queue to the caller |
| XFraming.AwaitKeepsLedger | src/amberx/PreviewClient.cpp:204-271 | a wait leaves every event read either queued once or handed out once |
| XFraming.RunKeepsInv | src/amberx/PreviewClient.cpp:204-271 | over any run of waits: what was read is the framing of what arrived, and every event was returned once or is queued once in arrival order |
| XFraming.FirstMatch | src/amberx/PreviewClient.cpp:230-254 | the first queued event of the kind and window, every earlier one not |
| XFraming.PiecesAreTheBytes | src/amberx/PreviewClient.cpp:71-90 | the frames sent join to the bytes, none empty, none larger than a frame may be, one byte each when fragmented |
| XFraming.StampedLengthIff | src/amberx/PreviewClient.cpp:171-178 | the length field tells the request's size exactly when that is a whole number of units below 2^18 bytes; nothing else changes |
| XFraming.BigLengthIff | src/amberx/PreviewClient.cpp:94-106 | the same for a BIG-REQUESTS request, which counts its own extra length |
| XFraming.XClient.constructor | src/amberx/PreviewClient.cpp:44-63 | nothing read and nothing sent |
| XFraming.XClient.Receive | src/amberx/PreviewClient.cpp:138-168 | the receive loop |
| XFraming.XClient.Pull | src/amberx/PreviewClient.cpp:181-201 | one message off the stream, with its kind |
| XFraming.XClient.AwaitReply | src/amberx/PreviewClient.cpp:204-225 | waits for the reply with the request's number |
| XFraming.XClient.AwaitEventOf | src/amberx/PreviewClient.cpp:243-271 | the queue first, then the stream |
| XFraming.XClient.AwaitOnStream | src/amberx/PreviewClient.cpp:255-270 | the loop over the stream |
| XFraming.XClient.SendData | src/amberx/AmberXController.cpp:493-497 | a frame goes out when the channel takes it and it is no larger than allowed |
| XFraming.XClient.SendRaw | src/amberx/PreviewClient.cpp:71-90 | the pieces go out in order up to the first refused, and success means all of them did |
| XFraming.XClient.Send | src/amberx/PreviewClient.cpp:171-178 | stamps the length, counts the request, sends |
| XFraming.XClient.SendBig | src/amberx/PreviewClient.cpp:94-106 | inserts the long length, counts the request, sends |
| ShellSplit.LexedConcat | src/security/BlastRadius.cpp:110-172 | reading a text in two parts is reading it whole, unless the cut falls after a lone backslash |
| ShellSplit.SplitConcat | src/security/BlastRadius.cpp:110-172 | a command that ends in plain mode, a space, and any text split into the words of both |
| ShellSplit.SplitUndoesQuoting | src/security/BlastRadius.cpp:110-172 | any words, each bare, single-quoted, double-quoted or escaped in any mix, with any blanks between, split back to exactly those words with nothing open |
| ShellSplit.EveryListIsSplit | src/security/BlastRadius.cpp:110-172 | every list of strings, empty ones included, is what some command splits to |
| ShellSplit.SplitIsPosixIff | src/security/BlastRadius.cpp:110-172 | over all quoted lines: the words are those of POSIX quoting exactly when no backslash stands before a newline outside single quotes |
| ShellSplit.OneLineIsPosix | src/app.cpp:12816-12830 | a line without a newline, as every one that is analysed, splits just as POSIX quoting has it |
| ShellSplit.UnquotedWord | src/security/BlastRadius.cpp:110-172 | a string with nothing to quote is one word, itself |
| ShellSplit.SplitArgs | src/security/BlastRadius.cpp:110-172 | the scanning loop gives these words and says whether a quote is open |
| BlastRadius.TrailingSlash | src/security/BlastRadius.cpp:190-219 | a trailing slash makes no difference to whether a path is root-like |
| BlastRadius.WorstIsMax | src/security/BlastRadius.cpp:68-79 | the level of some findings is the highest among them |
| BlastRadius.FindingsFlag | src/security/BlastRadius.cpp:225-481 | every finding of every family carries a level above None |
| BlastRadius.ReportLevel | src/security/BlastRadius.cpp:485-628 | a report's level is that of the worst of its findings, or exactly one step above it under sudo when that is below Critical, and None exactly when there are none |
| BlastRadius.ReportSudoIff | src/security/BlastRadius.cpp:529-565 | a report says sudo exactly when sudo or doas is among the words before the program |
| BlastRadius.UnderSudo | src/security/BlastRadius.cpp:529-565 | sudo or doas with any options before a command read by its arguments: the same program, its findings first, sudo noted, and the level one step up unless it was under sudo already |
| BlastRadius.SudoIsOneStepWorse | src/security/BlastRadius.cpp:529-565 | the same for the bare words |
| BlastRadius.SudoAsUser | src/security/BlastRadius.cpp:538-553 | the same for an option with its user or group |
| BlastRadius.AssignmentIsPrefixIff | src/security/BlastRadius.cpp:559-563 | an assignment is stepped over exactly when its value holds no slash |
| BlastRadius.BehindAssignment | src/security/BlastRadius.cpp:559-572 | behind an assignment the report is that of the command exactly if the value holds no slash; otherwise the assignment is taken for the program |
| BlastRadius.DeleteIsHidden | src/security/BlastRadius.cpp:529-565 | a delete of everything is Critical by itself and has no finding behind the assignment of a path |
| BlastRadius.FindingsFollowTheWords | src/security/BlastRadius.cpp:504-628 | for a program read by its arguments, equal words up to the first chain operator give equal findings, level and program |
| BlastRadius.ChainTailIsNotRead | src/security/BlastRadius.cpp:504-518 | for such a program, appending a spaced chain operator and any text changes neither findings nor level and marks the report incomplete |
| BlastRadius.OtherProgramsReadTheWholeLine | src/security/BlastRadius.cpp:449-481 | for any other program the findings are those of the whole line searched for statements |
| BlastRadius.TailChangesNothingIff | src/security/BlastRadius.cpp:449-518 | for a command that ends in plain mode: no operator and tail ever change the findings, exactly when its program is read by its arguments or it holds the statement looked for first |
| BlastRadius.FoundIffContained | src/security/BlastRadius.cpp:449-481 | the search reports something exactly when the line holds one of the statements |
| BlastRadius.RmLevel | src/security/BlastRadius.cpp:225-256 | an rm is Low without a target, else as bad as its worst target |
| BlastRadius.TargetsWorst | src/security/BlastRadius.cpp:225-256 | the worst over the targets, by what each is and whether the removal is recursive |
| BlastRadius.OperandsGrow | src/security/BlastRadius.cpp:42-59 | one more argument adds at most one operand, at the end |
| RiskRules.FindingsFollowTheArguments | src/security/BlastRadius.cpp:575-617 | two argument lists with the same operands and the same flags get the same findings from every family but dd |
| RiskRules.FlagsMayBeJoined | src/security/BlastRadius.cpp:20-59 | short flags written together or apart are the same arguments |
| RiskRules.FlagsMayMove | src/security/BlastRadius.cpp:20-59 | so is a flag before or after the words beside it, up to "--" |
| RiskRules.UnsureIff | src/security/BlastRadius.cpp:174-183 | a finding is uncertain about a word exactly when it holds a dollar sign or a backquote |
| RiskRules.ClimbingOutIsRoot | src/security/BlastRadius.cpp:190-221 | a path that climbs four levels counts as a root |
| RiskRules.FiveDotsAreRoot | src/security/BlastRadius.cpp:214-221 | so does any name that ends in five dots |
| RiskRules.SystemPathIsRoot | src/security/BlastRadius.cpp:190-221 | a system directory counts as a root, and what is inside one by its plain name does not |
| RiskRules.PlainNameIsNoRoot | src/security/BlastRadius.cpp:190-221 | a plain name is no root |
| RiskRules.MoveIsCriticalIff | src/security/BlastRadius.cpp:258-280 | a move is Critical exactly when a root is among what it moves or where it moves to; a copy exactly when it goes onto one |
| RiskRules.OwnIsCriticalIff | src/security/BlastRadius.cpp:282-301 | chmod and chown are Critical exactly when a root is among the files |
| RiskRules.RowsAreCriticalIff | src/security/BlastRadius.cpp:449-482 | a delete or update of rows is Critical exactly without a WHERE |
| RiskRules.CompleteIff | src/security/BlastRadius.cpp:485-527 | a report claims to be complete exactly when there is no chain operator, no unclosed quote and no substitution |
| BlastRadius.RiskReport.constructor | src/security/BlastRadius.cpp:487-488 | an empty report of no risk |
| BlastRadius.RiskReport.Add | src/security/BlastRadius.cpp:68-79 | a finding is appended and the level stays the worst of them |
| BlastRadius.RiskReport.AddAll | src/security/BlastRadius.cpp:68-79 | so for several |
| BlastRadius.RiskReport.AddTarget | src/security/BlastRadius.cpp:231-255 | the finding for one target of rm |
| BlastRadius.RiskReport.AnalyseRm | src/security/BlastRadius.cpp:225-256 | the rm family's findings, level kept |
| BlastRadius.RiskReport.Analyse | src/security/BlastRadius.cpp:577-626 | the program's family, then the step for sudo |
| BlastRadius.NonFlags | src/security/BlastRadius.cpp:42-59 | the loop keeps the operands |
| BlastRadius.KeepFirst | src/security/BlastRadius.cpp:504-518 | the words before the first chain operator |
| BlastRadius.FindProgram | src/security/BlastRadius.cpp:529-566 | skips sudo, environment assignments and wrappers to the program |
| BlastRadius.PastOptions | src/security/BlastRadius.cpp:541-549 | skips the options of sudo and their values |
| BlastRadius.AnalyseCommand | src/security/BlastRadius.cpp:485-628 | the report of a command is Analysed's |
| Utf8.AppendUtf8 | src/common.h:85-106 | appends the one to four bytes of a code point |
| Utf8.Next | src/sessions/CommandBlocks.cpp:18-44 | one turn of the decoder |
| Utf8.AppendUtf32 | src/sessions/CommandBlocks.cpp:15-45 | appends the code points decoded |
| Utf8.FirstOfEncoded | src/sessions/CommandBlocks.cpp:15-45 | an encoded character reads back as itself modulo 2^21 whatever follows |
| Utf8.DecodeUndoesEncode | src/sessions/CommandBlocks.cpp:15-45 | encoding any code points below 2^21, so all of Unicode, and decoding gives them back, and the bytes after them decode as they would alone |
| Utf8.RoundTripIff | src/common.h:85-106 | exactly the values below 2^21 survive the round trip |
| Utf8.DecodedSize | src/sessions/CommandBlocks.cpp:15-45 | any bytes give at most one code point a byte and at least one unless empty |
| Utf8.StrayByte | src/sessions/CommandBlocks.cpp:25 | a stray continuation byte is one replacement and reading goes on behind it |
| Utf8.BitsAreRead | src/sessions/CommandBlocks.cpp:22-41 | two bytes are read as the bits they carry, also when one would have done |
| Utf8.CutShortIff | src/sessions/CommandBlocks.cpp:26-43 | a character cut short is one replacement and reading goes on at what follows it, unless less is left than its length, and then all of that is lost |
| Utf8.LettersAreSwallowed | src/sessions/CommandBlocks.cpp:26-30 | an input that loses two letters so |
| Utf8.Clip | src/sessions/CommandBlocks.cpp:48-54 | a long text becomes its own beginning and an ellipsis within the bound, which fails only for a bound of zero |
| SigilHash.StepInjective | src/security/HostSigil.cpp:17-26 | a step of the hash separates states and separates bytes |
| SigilHash.TailKeepsApart | src/security/HostSigil.cpp:17-26 | two states agree after a text exactly when they agreed before it |
| SigilHash.OneByteChangesTheHash | src/security/HostSigil.cpp:17-26 | texts of one length that differ in exactly one byte have different hashes |
| SigilHash.FnvConcat | src/security/HostSigil.cpp:17-26 | hashing is reading byte after byte |
| SigilHash.Fnv1a64 | src/security/HostSigil.cpp:17-26 | the loop computes the hash |
| SigilHash.MixIsBijective | src/security/HostSigil.cpp:32-41 | the output function of splitmix64 has an inverse on all 64-bit words |
| SigilHash.StateCounts | src/security/HostSigil.cpp:32-41 | the state is a counter in disguise |
| SigilHash.StreamIsFullPeriod | src/security/HostSigil.cpp:32-41 | two draws agree exactly when their numbers agree modulo 2^64, and every word is drawn |
| SigilHash.FindDraw | src/security/HostSigil.cpp:32-41 | finds the draw that gives a word |
| SigilHash.Stream.constructor | src/security/HostSigil.cpp:28-31 | a stream at its seed |
| SigilHash.Stream.Next | src/security/HostSigil.cpp:32-41 | the next draw |
| Bits.XorShiftUndone | src/security/HostSigil.cpp:38-40 | xor with a right shift of itself is undone by xoring all the shifts |
| HostSigil.SourceTextIsTheBody | src/security/HostSigil.cpp:50-69 | a fingerprint's body is found whatever is before it, unless that holds a fingerprint itself, and whatever comment after it |
| HostSigil.FiguresAreWellDrawn | src/security/HostSigil.cpp:83-145 | five to eight nodes in a ring, up to three proper chords, every number in its range, every centre in the unit box |
| HostSigil.DegenerateIff | src/security/HostSigil.cpp:125-128 | a chord is skipped exactly when it joins a node to itself or lies on an edge of the ring |
| HostSigil.NodesNeverMeet | src/security/HostSigil.cpp:87-106 | the centres of two nodes of one figure are more than 0.11 apart, however they are jittered |
| HostSigil.SameIffHashedSame | src/security/HostSigil.cpp:200-223 | two sigils are equal to SigilEqual, which compares the seeds first, exactly when their bodies hash the same |
| HostSigil.IdentityIsTheBody | src/security/HostSigil.cpp:71-82 | key type and comment make no difference to any field of the sigil; with one byte of the body changed it is never equal to SigilEqual |
| HostSigil.MnemonicsCollideModulo5625 | src/security/HostSigil.cpp:178-198 | two mnemonics are the same exactly when the seeds agree modulo 5625 |
| HostSigil.MakeSigil | src/security/HostSigil.cpp:71-145 | the figure of the normalised fingerprint |
| HostSigil.DrawFigure | src/security/HostSigil.cpp:83-145 | the parts take their draws from one stream in this order |
| HostSigil.DrawNodes | src/security/HostSigil.cpp:87-106 | four draws a node |
| HostSigil.RingEdges | src/security/HostSigil.cpp:111-118 | each node joined to the next, the last to the first |
| HostSigil.DrawChords | src/security/HostSigil.cpp:119-131 | chords that are no ring edge |
| HostSigil.DrawCorners | src/security/HostSigil.cpp:134-135 | four corners |
| HostSigil.DrawRhythm | src/security/HostSigil.cpp:136-139 | six to ten segments |
| HostSigil.SigilEqual | src/security/HostSigil.cpp:200-223 | field by field |
| HostSigil.SigilMnemonic | src/security/HostSigil.cpp:178-198 | two consonants and two vowels, alternating, from the seed's low digits |
| DesktopBudget.BudgetIsNothingIff | src/render/desktop.cpp:255-258 | the budget is nothing exactly for an adapter with some memory but less than four particles' worth |
| DesktopBudget.BudgetIsAQuarter | src/render/desktop.cpp:255-258 | so many particles are within the budget exactly when they fit in a quarter of the memory and are no more than the maximum |
| DesktopBudget.ClampIsNearest | src/render/desktop.cpp:262 | the density is brought to the nearest of one to four |
| DesktopBudget.SampledCovers | src/render/desktop.cpp:266-267 | the pixels kept are the fewest whose blocks of one stride cover the side |
| DesktopBudget.ParticlesMonotone | src/render/desktop.cpp:266-268 | a larger stride or smaller density never gives more particles, and never none |
| DesktopBudget.Sampled32Is | src/render/desktop.cpp:266-267 | the sampled side in 32 bits is the true one until the sum wraps, and then nothing |
| DesktopBudget.SomeStrideStopsIff | src/render/desktop.cpp:264-281 | some 32-bit stride stops the loop exactly when the budget is not nothing or some side has two pixels |
| DesktopBudget.Configure | src/render/desktop.cpp:251-282 | the loop ends with the particles within the budget and the two flags exact; with a budget, the whole desktop at the largest density that fits, else density one at the smallest stride that fits; with none, an empty layout at the first stride that wraps |
| DesktopBudget.OptimalIsUnique | src/render/desktop.cpp:264-281 | there is only one such layout |
| DesktopBudget.BudgetMonotone | src/render/desktop.cpp:264-281 | more memory never gives a coarser picture |
| DesktopDamage.PosIsInjective | src/render/desktop.cpp:557-562 | a rectangle's pixels go to distinct positions inside it |
| DesktopDamage.CellFits | src/render/desktop.cpp:550-573 | for any stride every pixel's cell is inside the block that is sent |
| DesktopDamage.CellIsASquare | src/render/desktop.cpp:550-573 | a pixel pools into a cell exactly when its position lies in the square of the screen that cell stands for |
| DesktopDamage.EveryCellIsUsed | src/render/desktop.cpp:550-573 | the block sent has no cell to spare: some pixel pools into every one |
| DesktopDamage.PooledIsTheMaximum | src/render/desktop.cpp:560-579 | a cell is zero exactly when none of its pixels changed, otherwise the largest burst of those that did, at most 255 |
| DesktopDamage.DeltaIsTheLargest | src/render/desktop.cpp:560-568 | the change of a pixel is the largest change of its three colours, whatever the top byte |
| DesktopDamage.BurstIsScaled | src/render/desktop.cpp:569-575 | a burst is the change times the disturbance, cut to a whole number from 1 to 255 |
| DesktopDamage.SentIffStirred | src/render/desktop.cpp:584-585 | a block is sent exactly when some cell of it is not zero |
| DesktopDamage.ReachedFits | src/render/desktop.cpp:540-547 | the rectangles handled are on the screen and have their pixels, and what stops the rest is one that is not or has not, or a refusal |
| DesktopDamage.WholeDamageIff | src/render/desktop.cpp:539-587 | a damage gets through whole exactly when its rectangles are on the screen, it has their pixels and the GPU takes each |
| DesktopDamage.InBoundsIff | src/render/desktop.cpp:542-545 | a rectangle with pixels is in bounds exactly when the last of them is on the screen |
| DesktopDamage.Untouched | src/render/desktop.cpp:539-587 | where no rectangle lies the shadow is as it was |
| DesktopDamage.LastRectangleWins | src/render/desktop.cpp:539-587 | elsewhere it has the pixel of the last rectangle over it |
| DesktopDamage.UploadPastes | src/render/desktop.cpp:539-587 | the shadow takes every rectangle handled, the texture every one the GPU took: the same, or all but the last |
| DesktopDamage.FrameFollowsShadow | src/render/desktop.cpp:581-583 | a texture equal to the shadow stays so unless a rectangle is refused, and then they differ at most inside that one |
| DesktopDamage.KeptIsTheOldFrame | src/render/desktop.cpp:517-535 | the texture kept for transitions holds the frame from before the upload under every rectangle on the screen |
| DesktopDamage.DesktopParticles.PoolRow | src/render/desktop.cpp:557-579 | the loop along a row extends shadow and cells by exactly its pixels |
| DesktopDamage.DesktopParticles.PoolRect | src/render/desktop.cpp:549-580 | the two loops leave the shadow with the rectangle in place, every cell pooled, and report a change exactly when there was one |
| DesktopDamage.DesktopParticles.KeepReplaced | src/render/desktop.cpp:521-535 | the copies made before anything is overwritten |
| DesktopDamage.DesktopParticles.UploadOne | src/render/desktop.cpp:548-586 | one rectangle: shadow always, texture when taken, and its block |
| DesktopDamage.DesktopParticles.Upload | src/render/desktop.cpp:487-590 | the whole upload in rectangle order; a damage of another size changes nothing |
| HeldInput.KeySent | src/vnc/VncSession.cpp:155-168 | what a key command does to the keys the far side will hold |
| HeldInput.PointerSent | src/vnc/VncSession.cpp:170-190 | a pointer command, coalesced or not, leaves the far side with its mask and the same keys |
| HeldInput.NothingCrossesOver | src/vnc/VncSession.cpp:738-768 | a connection comes up with nothing held on it: what was pressed before is thrown away by a turn of the handshake, and what is queued without a connection releases whatever it presses |
| HeldInput.KeyKeepsInv | src/app_vnc.cpp:471-514 | a key keeps the record covering the far side |
| HeldInput.ReleaseAllEffect | src/app_vnc.cpp:631-646 | after releasing everything the far side will hold no key and no button |
| HeldInput.BalancedIff | src/app_vnc.cpp:631-646 | commands leave nothing held exactly when every press among them is followed by its release |
| HeldInput.StepKeepsInvIff | src/app_vnc.cpp:199-277 | every step of window or worker keeps the invariant, and the record covering the far side, except exactly this one: taking the news of a connection after something was pressed on the present one and not released |
| HeldInput.RunCoversIff | src/app_vnc.cpp:199-277 | over any run the record covers the far side throughout, and the invariant holds throughout, exactly when no such news is taken |
| HeldInput.FarSideIsSafe | src/app_vnc.cpp:471-691 | after any such run the far side's keys are among those recorded, its buttons are the recorded ones, releasing all leaves nothing held, and a view-only desktop holds nothing |
| HeldInput.EarlyPress | src/app_vnc.cpp:199-205 | a run that leaves a view-only desktop holding a key that is in no record: pressed after the link came up and before the news of it was taken |
| HeldInput.LostUntilStepIff | src/app_vnc.cpp:471-691 | a key that is down and unrecorded stays so over every step but a key event naming it, Ctrl+Alt+Del for its three, and the end of the connection; of these all but a press, which records it again, free it |
| HeldInput.LostThroughoutIff | src/app_vnc.cpp:631-646 | over any run such a key is down and unrecorded throughout exactly when none of those steps is taken |
| HeldInput.PressHoldsIff | src/app_vnc.cpp:471-505 | a press makes the key held, in the record and on the far side, exactly when the handler acts on it |
| HeldInput.ReleaseFreesIff | src/app_vnc.cpp:471-511 | a release frees a key exactly when the handler acts on it and it names the keysym that is down |
| HeldInput.UpAgainIff | src/app_vnc.cpp:471-514 | a key that was up goes down and up, under any modifiers and with anything else between: it is up afterwards exactly when the press was not acted on, or the release was and named the same side |
| HeldInput.TypingReleasesNothing | src/app_vnc.cpp:516-553 | typing changes nothing that is held: text never shares a keysym with a held key |
| HeldInput.CharacterIsTyped | src/app_vnc.cpp:516-553 | a character of the basic plane goes out as one press and release of its own keysym, or not at all when it already went as a key |
| HeldInput.SurrogatePairIsTyped | src/app_vnc.cpp:524-536 | the two halves of any other character go out as one press and release of that character's keysym |
| HeldInput.ControlLetterIsTypedIff | src/app_vnc.cpp:537-549 | a letter under Control goes out as that letter, except for exactly h, i, j, m and v |
| HeldInput.LostLettersAreNoKeys | src/app_vnc.cpp:471-514 | h, i, j and m under Control do not go out as keys either |
| HeldInput.ClipboardIsSent | src/app_vnc.cpp:877-905 | the clipboard text and, when it is to be typed, the press and release of its letter |
| HeldInput.EveryNotchIsSent | src/app_vnc.cpp:616-626 | each notch of the wheel is a press and a release in turn, and coalescing swallows none |
| HeldInput.PointerFollowsTheMouse | src/app_vnc.cpp:555-607 | after a move or button inside the picture the last thing queued is that position with the buttons then held |
| HeldInput.MotionIsSentIff | src/app_vnc.cpp:588-607 | a motion goes out exactly when input is allowed, the position is new, and the pointer is over the picture or a button is held |
| HeldInput.ButtonIsSentIff | src/app_vnc.cpp:555-586 | a press goes out exactly over the picture and a release anywhere, but not over the title bar or without leave for input |
| HeldInput.ViewOnlyIsQuiet | src/app_vnc.cpp:653-669 | the command turns view-only on and off in turn; while it is on no handler queues anything |
| HeldInput.SecureAttentionEffect | src/app_vnc.cpp:671-684 | Ctrl+Alt+Del leaves none of its three keys down on the far side and touches no other |
| HeldInput.SecureAttentionSends | src/app_vnc.cpp:671-684 | Ctrl+Alt+Del goes out as three presses and then three releases, the last pressed first |
| HeldInput.KeysymFromVirtualKey | src/vnc/Keysyms.cpp:9-52 | keys that type nothing have keysyms in the function-key range, others none |
| HeldInput.KeysAreToldApart | src/vnc/Keysyms.cpp:9-52 | no two keys have the same keysym but the second names of Shift, Control and Alt |
| HeldInput.AttentionKeys | src/app_vnc.cpp:671-684 | the three keys of Ctrl+Alt+Del go by the names they have when pressed |
| HeldInput.KeysymFromCodePoint | src/vnc/Keysyms.cpp:54-59 | text has keysyms outside that range |
| HeldInput.VncTab.constructor | src/sessions/VncTab.h:46-53 | nothing held |
| HeldInput.VncTab.QueuePointer | src/vnc/VncSession.cpp:170-190 | queued or put in place of the last with the same buttons |
| HeldInput.VncTab.VncKey | src/app_vnc.cpp:471-514 | the key handler; the tab lets through only the application's own chords |
| HeldInput.VncTab.VncChar | src/app_vnc.cpp:516-553 | the character handler with its surrogate pairs and control letters |
| HeldInput.VncTab.VncMouseButton | src/app_vnc.cpp:555-586 | the button handler |
| HeldInput.VncTab.VncMouseMove | src/app_vnc.cpp:588-607 | the motion handler |
| HeldInput.VncTab.VncWheel | src/app_vnc.cpp:609-629 | a press and release of a wheel button for each notch |
| HeldInput.VncTab.VncReleaseAll | src/app_vnc.cpp:631-646 | every key recorded is released, then the buttons, and the record is empty |
| HeldInput.VncTab.CommandViewOnly | src/app_vnc.cpp:661-669 | everything is released before input stops |
| HeldInput.VncTab.PumpEvent | src/app_vnc.cpp:199-277 | one event taken; the news of a connection or its end clears the record |

## Left out

- UploadRings.AllocSafe: sizes are unbounded; that a 64-bit offset or a doubled block size does not overflow is taken for granted. `AlignUp` is the arithmetic of the source's bit mask for power-of-two alignments.
- CellMirror.ParticleRenderer.EnsureGrid: requires that five quarters of the cell count fit 32 bits, where the source's product would wrap.
- CellMirror.ParticleRenderer.PlanBirths: reals instead of floats, and counts that do not wrap at 32 bits.
- GlyphAtlas.GlyphSampler.AddAtlasGlyph: requires rasters narrower than the atlas, the exact condition of InsideIffNarrow; how a glyph is rasterised and the point templates are not part of this model.
- ColorWorker.MailboxSafe: excludes code point 0, the exact exception of StepKeepsInvIff; the colour bitmap's own pixels and cluster shaping are not modelled.
- FrameQueue.QueueSafe: the two passes of Poll are the steps FirstLook, the end of the wait and SecondLook, so that the reader can run between them; ReadFrame's results and the clock are inputs; Poll before the reader is started and StopReader's join are not modelled.
- XAuth.CookieEqual: functional equality only, nothing about timing; ParseDisplay, MakeCookieHex and reading the file are left out.
- XSetup.RewriteSetup: requires the expected cookie to be sixteen bytes when a real one of sixteen is put in, because the copy overwrites that many; the size limit its caller puts on the buffered setup is left out.
- XFraming.NextFrames: a length field for which 32 plus the extra bytes wraps in 32 bits is reported as Overrun, from where the program's behaviour is undefined.
- XFraming.RunKeepsInv: time is the number of loop turns and the outcomes polling gives; errorFor, the setup exchange and the request builders are left out.
- ShellSplit.SplitArgs: blanks are those of the C locale.
- BlastRadius.FindingsFlag: of the families other than rm, mv, cp, chmod and chown only what they share is specified (RiskRules); which words each looks for is transcribed.
- BlastRadius.AnalyseCommand: messages are names of the findings instead of their wording; policy, headline and confirmation style are left out.
- Utf8.Clip: characters are code points, as in the source; TrimBlocks and the row lookups beside it are left out.
- HostSigil.FiguresAreWellDrawn: sine and cosine are parameters bounded by one, and fractions are reals.
- HostSigil.NodesNeverMeet: sine and cosine are parameters on the unit circle that obey the rule for the cosine of a difference, with the cosine at most 0.91 from 0.435 up to as much before a full turn; nothing about the discs' radii.
- HostSigil.SameIffHashedSame: that two seeds make drawings that look different is not shown.
- DesktopBudget.Configure: requires sides below 2^31, where the VNC client's own limit is 16384, so that no 64-bit product wraps, and leaves out the desktop of one pixel with a budget of nothing, where the source divides by zero; the byte total and the GPU resources are left out.
- DesktopDamage.DesktopParticles.Upload: requires non-empty rectangles, because the pixel loop does not skip empty ones; whether the GPU takes a copy is an input, one for each rectangle, and the answer for the block of cells, which the source ignores, is not modelled; the bounding region of the damage is left out.
- HeldInput.FarSideIsSafe: one tab, already active; a handshake takes at least one turn before the one that ends it, as it does for any server that waits for a reply of the client (section 7.1 of RFC 6143); a server is taken to release everything when its connection ends; a button released before the picture has a place reads an unset position in the source and is not a step here; the two last-position fields are one optional pair; the clipboard guard's dialogs are an input.
- HeldInput.VncTab.PumpEvent: the handlers' fields and the session's queue are one object, so their separate locks are not modelled; each handler, with its test whether input is allowed, is one step.
- The glyph point queue and its staging buffers, the interlock of the copy queue in WaitIdle, timestamps and presentation.
- Everything that is Win32, D3D12, DirectWrite or audio, and the shaders.
- Profiles, menus, skins, dialogs, the demo and the self-check scripts: they would only add easy members.
