# Verified model of the camera's audio, OSD, motion, video and proxy cores

This project models the stateful cores of a camera application in Dafny and proves what they promise:

- `PcmPointers`, `PcmFifo`, `Pcm`, `PcmSchedules`: the memory-mapped PCM ring of `src/pcm.c`. Two 32-bit pointers run
  modulo a boundary, the device moves between the application's statements, and the ring refines an unbounded stream of
  frames. `PcmSchedules` runs the playback loops against schedules of the device.
- `AudioQueue`: the wait/signal protocol of `src/camera/callbackAudioQueue.c` as a state machine with one step for every
  shared access, spurious wakeups included.
- `OsdCommon`, `LatticeFont`, `OsdText`, `OsdLayout`, `OsdGrid`, `OsdDate`: text layout, glyph painting, and the running date
  whose changed digits are copied from a pre-painted strip (`src/camera/osd_functions.c`, `osd_text.c`,
  `lattice_font.c`).
- `PercentDecoding`, `SocksGrammar`, `SocksUrl`: the in-place percent decoder and the SOCKS URL parser of
  `src/client_shared.c`, with the grammar it accepts and the ownership of every allocated block.
- `MotionDetect`: the arm/quiet/report state machine of `src/camera/motion_detect_c.c` and its two clocks.
- `H264Frame`, `AnnexB`: the start code scanner and frame assembler of `src/camera/h264_frame_proc.c`, against streams
  built as Annex B of the H.264 standard says.
- `Base64`, `WaveFile`: the encoder of `src/sub_client.c` and the WAV writer of `src/camera/pgWaveFile.c`, each against
  a decoder written from its format.
- `CIntegers`, `Strings`: C integers, modular arithmetic and C strings.

Objects that the C code updates in place are classes or arrays; each of their methods is proved against a specification
function or an abstract history, and the laws are lemmas about those.

## Where the code and its promises differ

- `src/pcm.c:874` compares with `>`: with a full buffer of which only the application pointer has wrapped, the playback
  space is reported as `boundary` instead of 0. `PlaybackAvailExact` shows that this is the only such case,
  `OverwritesExactly` that the application then overwrites the oldest unread frame, and `MmapTransfer` that the ring
  stops refining the stream (`lost`) if and only if a piece is taken there, or a failed wait resets a pointer that is not
  at the start of the boundary. Which requests can meet the corner is a condition on fill, pointer and length before the
  call: `MeetsCornerExactly` for `pcm_mmap_transfer_areas`, and `RoundsMeetCornerExactly` for `pcm_mmap_transfer` on a
  running device. There it is sharper, because every round but the last moves all that a wakeup makes available;
  `RoundsAvoidCorner` is a request that only the first loop can take into the corner.
- The comment at `src/client_shared.c:396` says that `%40` becomes `@`; the code writes `:`. The model follows the code;
  `AsDocumentedExactly` and `RoundTrip` say exactly which texts are affected.
- `src/camera/osd_text.c:168` takes `(row * width) >> 3` for the start of a row, while the font files start each row at
  a byte. `StridesAgree`: the two agree exactly for widths that are multiples of 8.
- With an odd font size, full-width characters overlap their right neighbour (`OverlapExactly`), and `lines` runs below
  zero when the first line does not fit the buffer (`LinesUnderflow`).
- A text box that starts behind the end of the picture (more than 100 per cent) has no limit from there, except when it
  starts so little behind that the difference rounds to zero; a box of more than 65504 columns gets none (`AreaHeight`,
  `AreaWidth`).
- The calls that should fill the SPS and PPS caches (`src/camera/h264_frame_proc.c:129-134`, `144-149`) search the same
  bytes again and copy nothing. `FrameProcData` proves that the cached bytes stay zero while their length becomes 128.
- The scanner can read the byte behind the frame. It does so exactly when the frame ends in 00 00 00 01 and the searches
  reach that start code: it is the only one, the second behind an SPS, or the third behind SPS and PPS (`Classify`,
  `LooksBehind`). The model takes that byte as a parameter; where it is not read, it does not matter
  (`OutcomeWithoutLooking`).
- The boundary loop of `src/pcm.c:793-794` does not end for a buffer of no frames (`EndsExactly`).
- The WAV writer does not pad an odd data chunk, does not count a write whose length is negative as an `int`, and wraps
  its lengths at 2^32. `WaveFile.RoundTrip`: in all other cases, and only in those, the file reads back.

## Model

| member | source | states |
|---|---|---|
| PcmPointers.PickBoundary | src/pcm.c:789-794 | For every size for which the doubling loop ends, its 32-bit result; for a size that fits an int this is the largest power-of-two multiple that leaves room for the signed computations, and the two sizes are legal exactly when three buffers fit an int |
| PcmPointers.EndsExactly | src/pcm.c:793-794 | The loop ends within 31 turns or never, and never for a buffer of no frames |
| PcmPointers.EndsInRange | src/pcm.c:793-794 | For every other size that fits an int it ends |
| PcmPointers.BoundaryUnique | src/pcm.c:789-794 | There is only one such boundary |
| PcmPointers.PlaybackAvailExact | src/pcm.c:866-878 | For all legal pointers the playback space is the buffer size less the fill if and only if the pointers are not in the corner; in the corner, which is a full buffer with only the application pointer wrapped, it is the boundary |
| PcmPointers.PlaybackAvailRange | src/pcm.c:866-878 | The playback space is never negative or above the boundary, and zero only on a full buffer |
| PcmPointers.CaptureAvailExact | src/pcm.c:880-886 | The capture space is always the true distance of the pointers |
| PcmPointers.CornerExample | src/pcm.c:866-878 | A 1024-frame buffer reaches the corner with legal pointers |
| PcmPointers.FullRingCorner | src/pcm.c:866-878 | With a full ring, the pointers are in the corner exactly when the application pointer is less than a buffer past its wrap |
| PcmPointers.ApplForwardModulo | src/pcm.c:897-906 | The application pointer stays legal, resting on the boundary at most, and in step with its unbounded position |
| PcmPointers.ForwardRests | src/pcm.c:897-906 | Any number of forwards comes to rest where one long one would |
| PcmPointers.ForwardOffset | src/pcm.c:897-917 | A piece that ends at the end of the ring leaves the next offset at its start |
| PcmFifo.RecordOne | src/pcm.c:240-247 | A frame recorded by the device extends the stream and disturbs no unread frame |
| PcmFifo.ReadPiece | src/pcm.c:310-328 | Frames taken in order leave the rest of the stream in its slots |
| PcmFifo.WaitingPiece | src/pcm.c:310-328 | A contiguous piece of the ring holds exactly the frames that wait at its place in the stream |
| PcmFifo.WriteFreeSlots | src/pcm.c:310-328 | Writing into free slots, wrapped positions included, changes no unread frame |
| PcmFifo.OverwritesExactly | src/pcm.c:310-328 | A contiguous write covers the slot of an unread frame if and only if it is longer than the room left, and then that of the oldest one |
| PcmFifo.AppendPiece | src/pcm.c:330-352 | A piece written behind the stream becomes part of it |
| Pcm.Pcm.constructor | src/pcm.c:737-794 | Opening gives an empty ring, pointers at zero, the boundary of the loop and the refined thresholds, on 32 bits; the sizes are sound for the pointer arithmetic exactly when three buffers fit an int |
| Pcm.Pcm.HardwareTick | src/pcm.c:240-247 | The device moves one frame in either direction and keeps the refinement of the stream |
| Pcm.Pcm.SyncPtr | src/pcm.c:240-247 | Any number of device steps: the other side's history and, in playback, the ring are unchanged |
| Pcm.Pcm.FillIsDistance | src/pcm.c:866-886 | The distance of the pointers is the number of unread frames |
| Pcm.Pcm.MmapAvail | src/pcm.c:888-895 | The measured space is the true room exactly outside the corner, and never negative |
| Pcm.Pcm.MmapBegin | src/pcm.c:908-933 | The next piece is contiguous, and the most that request, room and ring end allow; it exceeds the room exactly for a non-empty request in the corner. In playback it is the piece the schedules of `PcmSchedules` take |
| Pcm.Pcm.AreasCopy | src/pcm.c:310-328 | Exactly the addressed frames are copied, in the direction of the stream; the slot of an unread frame is overwritten exactly when playback writes more than there is room for, and then the oldest one's is |
| Pcm.Pcm.MmapApplForward | src/pcm.c:897-906 | Moving the pointer appends the piece to what was written or read |
| Pcm.Pcm.MmapCommit | src/pcm.c:935-942 | A commit appends the piece and forwards the pointer; the device may move meanwhile |
| Pcm.Pcm.CopyAndCommit | src/pcm.c:340-341 | Copy and commit together move the piece and lose frames exactly when it is longer than the room |
| Pcm.Pcm.TransferPiece | src/pcm.c:338-350 | One round moves a prefix of the request in order and loses frames if and only if the pointers were in the corner; if the request fits, the piece is non-empty, loses nothing and leaves either nothing or the start of the ring |
| Pcm.Pcm.TransferAreas | src/pcm.c:330-352 | The loop ends and moves all frames in order; a request that fits takes at most two non-empty contiguous pieces and loses no unread frame; any other loses frames if and only if a piece met the corner, which the request could meet |
| Pcm.Pcm.AvailUpdate | src/pcm.c:944-948 | As MmapAvail, after looks at the device, which has moved if it could, or stalled once more |
| Pcm.Pcm.Start | src/pcm.c:842-855 | Running is set only when both device calls succeed |
| Pcm.Pcm.StartAtThreshold | src/pcm.c:1028-1039 | The device is running behind a successful threshold test, and untouched below the threshold |
| Pcm.Pcm.SleepIfShort | src/pcm.c:1041-1070 | When the round goes on, sleeps and retries, or stops; a failed wait stops the device and resets the pointer, which then is out of step with the stream exactly when it was not at the start of the boundary |
| Pcm.Pcm.PrepareRound | src/pcm.c:1019-1070 | The space a round goes on with lies between the room before and the room now, unless it was measured in the corner. A round goes on with a running device exactly when it ran before or the queued frames have reached the start threshold; only a stopped device can fail to start; the device has moved if it could, or stalled once more |
| Pcm.Pcm.MoveAvailable | src/pcm.c:1072-1090 | The rest, or as much of it as there is space for, is moved in order; a count that is negative as an int is moved whole |
| Pcm.Pcm.TransferRound | src/pcm.c:1019-1090 | One round moves as many of the frames left as are available, in order, and the ring stops refining the stream if and only if a piece met the corner or a failed wait reset a pointer that was not at the start of the boundary; on a running device, what meets the corner in or behind the round could do so from before it |
| Pcm.Pcm.MmapTransfer | src/pcm.c:1009-1094 | Over all rounds a prefix of the caller's frames is appended in order, and all of them on a normal end when the device runs at the end or the start threshold is within the buffer. The ring stops refining the stream if and only if a piece is taken in the corner or a failed wait resets a pointer that is not at the start of the boundary. The corner is met only by requests of more frames than there is room for, and on a running device only by those of `RoundsMeetCornerExactly`. More than INT_MAX frames never end normally: when they are moved, their number is taken for an error |
| PcmSchedules.MeetsCornerExactly | src/pcm.c:330-352 | Some schedule of the device takes the loop of `pcm_mmap_transfer_areas` into the corner if and only if, behind some but not all frames of the request, the ring can be full with the application pointer within a buffer of its wrap: a condition on fill, pointer and length before the call |
| PcmSchedules.RoundsMeetCornerExactly | src/pcm.c:1019-1090 | Some schedule takes the loop of `pcm_mmap_transfer` on a running device into the corner if and only if it is there already and a round does not sleep for it, or some number of whole rounds, each of a wakeup's frames at least and a buffer at most and the first not less than the room, can end there before the request does |
| PcmSchedules.RoundsAvoidCorner | src/pcm.c:1041-1090 | With a buffer of 4 frames that wakes at 4, empty and one buffer before the boundary, 12 frames can meet the corner in `pcm_mmap_transfer_areas` but not in `pcm_mmap_transfer` |
| PcmSchedules.AreasRests | src/pcm.c:330-352 | Under every schedule the pointer rests behind the frames moved, and a request that fits does not meet the corner |
| AudioQueue.StepKeepsInv | src/camera/callbackAudioQueue.c:32-56 | Every step of every thread keeps the invariant |
| AudioQueue.RunKeepsInv | src/camera/callbackAudioQueue.c:32-56 | So does every run |
| AudioQueue.RunsUntilClosed | src/camera/callbackAudioQueue.c:233-238 | In every run the player is running exactly until some thread closes it |
| AudioQueue.PushedByThreads | src/camera/callbackAudioQueue.c:79-103 | What is in the machine as pushed is, in order, what the threads pushed |
| AudioQueue.NoLostWakeup | src/camera/callbackAudioQueue.c:32-100 | In every reachable state, a consumer blocked although there are frames, or although a thread has closed the player, has a thread between its push or close and its notification; the waiter flag is up exactly inside the wait |
| AudioQueue.ExclusionAndOrder | src/camera/callbackAudioQueue.c:32-56 | The flags are touched by one thread at a time; what the threads pushed is what was popped and what still waits, in order, given a convert library that is an atomic FIFO |
| AudioQueue.AtMostOneLateWait | src/camera/callbackAudioQueue.c:79-103 | Once a run contains a close, the consumer finishes at most one more wait in any continuation, and it stops only after a close |
| AudioQueue.ConsumerAdvances | src/camera/callbackAudioQueue.c:79-103 | When the other threads have returned, an unsettled consumer can always take a step, and each brings it nearer its end |
| AudioQueue.ConsumerSettles | src/camera/callbackAudioQueue.c:79-103 | From every reachable state with the other threads returned, the consumer alone pops all pushed frames and goes to sleep, or leaves its loop when a thread has closed the player, in at most thirteen steps more than there are frames: it neither sticks nor spins |
| AudioQueue.SomeoneAdvances | src/camera/callbackAudioQueue.c:32-103 | No deadlock: no thread can take a step of its own exactly when all have returned and the consumer has settled |
| AudioQueue.EveryRunSettles | src/camera/callbackAudioQueue.c:32-103 | From every reachable state, pushers and closers in flight included, the threads' own steps in any order are bounded in number; none is left exactly when all threads have returned and the consumer sleeps on an empty queue or, when a thread has closed the player, has left its loop; an empty queue means that every frame pushed was popped, in order |
| OsdText.FillAreaMapPerBit | src/camera/osd_text.c:156-186 | Exactly the pixels of set bits, clipped at the right edge, get the font colour; all others keep theirs |
| OsdText.PixelOfGlyph | src/camera/osd_text.c:164-184 | The running index addresses the one pixel of its row and column, inside the glyph's rows of the bitmap |
| OsdText.InkedPixels | src/camera/osd_text.c:164-184 | A pixel gets ink if and only if some set bit of the glyph that is not clipped stands for it |
| OsdText.LeftmostIsHighest | src/camera/osd_text.c:180-182 | The pixels of a byte write its number in binary, the leftmost being the highest bit |
| OsdText.PaintedPicture | src/camera/osd_text.c:156-186 | A painted glyph shows besides the others |
| LatticeFont.CharToBitmap | src/camera/lattice_font.c:167-225 | The bits handed to the painter, the glyph's size and the bytes used; a character of no library leaves the size as it was and paints nothing |
| LatticeFont.GlyphsTileTheFile | src/camera/lattice_font.c:199-210 | Glyphs of different GB2312 codes lie apart in the file and follow each other without a gap |
| LatticeFont.AsciiTilesTheFile | src/camera/lattice_font.c:186-196 | The ASCII file holds the glyphs of the codes from 0 on, one behind the other without a gap |
| LatticeFont.Gb2312RowAndColumn | src/camera/lattice_font.c:197-215 | The bytes of row and column of the GB2312 table select the glyph at 94 times the row and the column, both counted from zero; row 7 has none |
| LatticeFont.CharacterKinds | src/camera/lattice_font.c:186-215 | Which first bytes are ASCII of half width, which start a two-byte character of full width, and which have no glyph |
| LatticeFont.LatticeLibraryIsLegal | src/camera/lattice_font.c:167-225 | Every glyph found has the bits the painter reads and fits the cell of its character; one-byte characters do not depend on the next byte |
| LatticeFont.PaintedByteInGlyph | src/camera/osd_text.c:168-181 | The painter never reads behind a glyph, whatever its width |
| LatticeFont.StridesAgree | src/camera/osd_text.c:168-168 | The painter reads every row where the font file keeps it exactly when the width is a multiple of 8 |
| OsdLayout.ConvertText | src/camera/osd_functions.c:745-848 | The bitmap shows exactly the glyphs of the layout plan in one colour on a transparent ground, and the saved offsets are those of its cells. It is an error exactly when the share of the picture, or the picture below the start, has no room for a line; otherwise the reported height ends with the last character painted |
| OsdLayout.AreaHeight | src/camera/osd_functions.c:760-762 | The box is as high as its share of the picture and the picture below its start allow |
| OsdLayout.AreaWidth | src/camera/osd_functions.c:764-767 | The box is as wide as the least multiple of 32 columns within which the text, its share of the picture or the picture behind its start ends; empty when that is 65536 |
| OsdLayout.PaintLines | src/camera/osd_functions.c:795-843 | The character loop follows the plan, both early ends included |
| OsdLayout.LayoutCharacter | src/camera/osd_functions.c:795-843 | One turn paints the next cell of the plan or ends it |
| OsdLayout.StartCharacter | src/camera/osd_functions.c:797-821 | The tests for the end of the line, the box and the buffer |
| OsdLayout.DrawCell | src/camera/osd_functions.c:827-833 | A character shows besides those before it, and uses the bytes its first byte announces |
| OsdLayout.SaveDate | src/camera/osd_functions.c:834-841 | The offsets of all characters so far are kept |
| OsdLayout.CellsAreInside | src/camera/osd_functions.c:760-845 | For any mix of one- and two-byte characters every cell is inside the box and the pixel buffer |
| OsdLayout.CellsAreDisjoint | src/camera/osd_functions.c:795-843 | No two cells of a text overlap if and only if the font size is even or no full-width character has a character of any width behind it on its line |
| OsdLayout.OverlapExactly | src/camera/osd_functions.c:795-843 | Some text overlaps if and only if the font size is odd, the box has room for a full-width character and another behind it, the first line fits the buffer and the font has full-width characters |
| OsdLayout.OverlappingText | src/camera/osd_functions.c:842-842 | Then a full-width character and any other of at least a pixel overlap, whatever their second bytes |
| OsdLayout.NextInLine | src/camera/osd_functions.c:795-843 | Neighbours on a line are half the font size apart for each byte |
| OsdLayout.ReportedSizeFits | src/camera/osd_functions.c:812-845 | The reported width times height is within the buffer if and only if the first line is, and then the height is within the box |
| OsdLayout.ReportedHeight | src/camera/osd_functions.c:812-846 | The reported height ends with the last character painted |
| OsdLayout.LinesUnderflow | src/camera/osd_functions.c:812-821 | In a box as wide as a character, the line counter runs below zero if and only if the first line does not fit the buffer |
| OsdLayout.UnderflowExample | src/camera/osd_functions.c:812-845 | One character of size 16 with a buffer of 100 pixels is reported 1048576 pixels high |
| OsdLayout.SamePlan | src/camera/osd_functions.c:795-843 | Two texts have the same layout if and only if they agree in how many bytes each painted character takes |
| OsdLayout.SingleByteCells | src/camera/osd_functions.c:795-843 | A complete layout of single-byte characters has one cell for each, in order |
| OsdGrid.SingleByteGrid | src/camera/osd_functions.c:795-843 | The layout of single-byte text in closed form: character i is painted exactly when its line fits the box and the buffer, and its column and line are the remainder and quotient of i by the characters on a line |
| OsdDate.CreateDigitBitmap | src/camera/osd_functions.c:851-905 | The strip shows the ten digits side by side |
| OsdDate.DigitCharacters | src/camera/osd_functions.c:854-854 | The characters of the strip are those of the string 0123456789 |
| OsdDate.LatticeFontHasDigits | src/camera/lattice_font.c:167-225 | A half-width font file that reaches up to `9` provides the digits |
| OsdDate.CopyCell | src/camera/osd_functions.c:975-980 | Copying row by row replaces exactly the pixels of one cell by those of a digit of the strip |
| OsdDate.StripShowsDigit | src/camera/osd_functions.c:851-905 | Every pixel of a digit's part of the strip shows that digit and no other |
| OsdDate.OnlyOwnCellInks | src/camera/osd_functions.c:795-843 | In a laid-out date the pixels of a cell show its own character only |
| OsdDate.BlitRerenders | src/camera/osd_functions.c:970-980 | Copying one digit turns the rendering of a date into the rendering with that digit |
| OsdDate.RepaintChanged | src/camera/osd_functions.c:964-981 | The character loop turns the rendering of the old date into that of the new one |
| OsdDate.UpdateDateString | src/camera/osd_functions.c:921-986 | For two dates of the same length that fit the box and whose changed characters are digits, repainting the changed cells turns the rendering of the old date into that of the new one |
| OsdDate.RunDates | src/camera/osd_functions.c:988-1009 | So does the update loop over any run of such dates |
| OsdDate.ShowRunningDate | src/camera/osd_functions.c:484-560 | Incremental update equals full rendering: after setting up a date and any number of ticks the bitmap equals, pixel by pixel, what osd_convert_text makes of the current date in a fresh buffer |
| OsdDate.RunningDateExample | src/camera/osd_functions.c:484-560 | A one-digit date in a box of 32 x 16 pixels is such a running date |
| PercentDecoding.UrlDecode | src/client_shared.c:397-438 | The in-place decoder computes the one left-to-right pass, and fails exactly when that does |
| PercentDecoding.Contract | src/client_shared.c:411-417 | The tail moves down by two and the string ends there |
| PercentDecoding.DecodeConcat | src/client_shared.c:397-438 | A part that decodes does so in front of anything: what comes out is never looked at again |
| PercentDecoding.DecodeEncode | src/client_shared.c:396-438 | Escaping and decoding give the text back but for at signs, which become colons |
| PercentDecoding.ColonedExactly | src/client_shared.c:425-431 | So the text itself exactly when it has none |
| PercentDecoding.DecodedLength | src/client_shared.c:411-431 | Each escape removes two characters |
| PercentDecoding.FailsExactly | src/client_shared.c:407-434 | Decoding fails if and only if the pass meets a percent sign that starts no known escape |
| PercentDecoding.EscapeTable | src/client_shared.c:411-434 | For any two characters behind a percent sign, upper and lower case: what they decode to, or that they fail |
| PercentDecoding.AsDocumentedExactly | src/client_shared.c:396-434 | The code agrees with the table in its comment if and only if it rejects the text or the pass meets no `%40` |
| PercentDecoding.AtSignEscapeGivesColon | src/client_shared.c:425-426 | `%40` decodes to a colon |
| SocksUrl.ParseSocksUrl | src/client_shared.c:440-586 | The parser stores exactly what the grammar says or rejects; every block it allocates is owned by the configuration or freed once, and all are freed on rejection |
| SocksUrl.Cleanup | src/client_shared.c:580-586 | The cleanup label frees the blocks of all pointers that are not null |
| SocksUrl.ScanText | src/client_shared.c:465-522 | The loop's variables hold the scan of the text: authentication excludes a pending name, a host needs authentication |
| SocksUrl.Colon | src/client_shared.c:467-492 | The branch for a colon |
| SocksUrl.AtSign | src/client_shared.c:493-521 | The branch for an at sign |
| SocksUrl.TakeRemainder | src/client_shared.c:524-555 | What is left becomes the port, the host of a host:port form, or the host; no pending name survives success |
| SocksUrl.StoreProxy | src/client_shared.c:557-579 | Decoding, the port range, the final ownership and the free of the port |
| SocksGrammar.LoopScansGrammar | src/client_shared.c:465-522 | After each turn the loop knows the grammar's reading of the prefix it has seen |
| SocksGrammar.SplitExactly | src/client_shared.c:457-555 | The text behind the scheme has given pieces if and only if they are well formed and it is written from them in one of the six documented forms, or with a colon and nothing else behind a host with credentials: the grammar is unambiguous, and nothing else is accepted |
| SocksGrammar.ScanShape | src/client_shared.c:465-522 | What a scan of any prefix satisfies |
| SocksGrammar.AcceptedUrls | src/client_shared.c:440-579 | An accepted URL has the scheme, at most one at sign, no empty host, user name or password, and a port from 1 to 65535 |
| SocksGrammar.RoundTrip | src/client_shared.c:457-463 | Printing any of the six forms and parsing it gives back its parts, with port 1080 when omitted, if and only if the credentials have no at sign; otherwise those become colons |
| Strings.AtoiDecimal | src/client_shared.c:564-564 | Reading a printed number gives it back |
| Strings.AtoiText | src/client_shared.c:564-564 | White space and a sign in front of a number are read, and what stands behind it is not |
| MotionDetect.MotionDetection.constructor | src/camera/motion_detect_c.c:38-64 | The thresholds and clocks at the start |
| MotionDetect.MotionDetection.GetDifference | src/camera/motion_detect_c.c:135-148 | The counter grows by the number of pixels that are 255 |
| MotionDetect.CountsPixels | src/camera/motion_detect_c.c:135-148 | That is the number of places with the value 255 |
| MotionDetect.MotionDetection.SetInputImage | src/camera/motion_detect_c.c:66-115 | Changes are counted against the previous frame of the same size, else against the frame itself; the frame is remembered |
| MotionDetect.ComparedWith | src/camera/motion_detect_c.c:66-115 | The changes of a frame are the places that differ from the frame before when that has the same size, and none otherwise |
| MotionDetect.MotionDetection.GetMotionResult | src/camera/motion_detect_c.c:10-36 | Throttled exactly when the frame comes less than the compare timer after the last one, or at first after the start and one compare timer; otherwise the history grows by this frame and stays lawful: state, clocks and reports are functions of it |
| MotionDetect.StateStep | src/camera/motion_detect_c.c:150-166 | The transition computes the state of the longer history |
| MotionDetect.StateCountsQuietFrames | src/camera/motion_detect_c.c:150-166 | Once armed, the state less one is the length of the run of quiet frames at the end since arming |
| MotionDetect.BusyFrameBeforeEachSend | src/camera/motion_detect_c.c:150-174 | Between two reports, and before the first, there is a frame above the upper threshold, and the reporting frame is below the lower one |
| MotionDetect.ReportsExactly | src/camera/motion_detect_c.c:28-36 | From the frames alone, without the state: a report is made if and only if the frame is below the lower threshold, one since the report before was above the upper one, and the server wait time is over, which at first counts from one wait after the start |
| MotionDetect.FramePacing | src/camera/motion_detect_c.c:16-19 | The k-th processed frame is not before the start plus k + 1 times the compare timer |
| MotionDetect.SendPacing | src/camera/motion_detect_c.c:28-31 | The k-th report is not before the start plus k + 1 times the server wait time |
| MotionDetect.NewSizeDoesNotArm | src/camera/motion_detect_c.c:84-95 | The first frame and every frame of a new size cannot arm the detector |
| H264Frame.GetNalBlock | src/camera/h264_frame_proc.c:24-55 | The mixed scan for three- and four-byte codes finds the first start code behind its base and the byte behind it, which for a code at the very end, and only then, is the one behind the frame |
| H264Frame.LastCodeAt | src/camera/h264_frame_proc.c:24-55 | A start code ends the frame exactly when its last four bytes are 00 00 00 01 |
| H264Frame.LastCodeFound | src/camera/h264_frame_proc.c:24-55 | A search finds that code exactly when it is the only one at or behind its base |
| H264Frame.OutcomeWithoutLooking | src/camera/h264_frame_proc.c:107-208 | Whether the byte behind the frame is read does not depend on it, and the decision does not either when it is not read |
| H264Frame.ChainVisitsAll | src/camera/h264_frame_proc.c:107-149 | Searching on behind each start code visits the start codes of the whole frame, none missed |
| AnnexB.FindsUnits | src/camera/h264_frame_proc.c:24-55 | For every stream built from units behind three- or four-byte start codes as the standard allows, the types found are those of the units, in order |
| H264Frame.Classify | src/camera/h264_frame_proc.c:107-208 | The chained searches decide by the types of the first three units of the whole frame; they read the byte behind the frame exactly when it ends in 00 00 00 01 and that start code is the only one, the second behind an SPS, or the third behind SPS and PPS |
| H264Frame.FrameCache.Reserve | src/camera/h264_frame_proc.c:173-187 | A buffer that is large enough is kept; otherwise the outcome is that of the allocation |
| H264Frame.FrameCache.Combine | src/camera/h264_frame_proc.c:166-201 | The output is both caches, which are zero bytes, and the frame, in this order; nothing only when the allocation fails |
| H264Frame.FrameCache.FrameProcData | src/camera/h264_frame_proc.c:107-209 | By the numbers of the unit types: a frame is passed through if and only if it has no unit, starts with neither 5 nor 7, or starts with 7, 8, 5; one that starts with 5 is assembled if and only if frames of exactly [7] and exactly [7, 8] were seen since the last clean and the buffer can be had; everything else is dropped. An assembled frame is 256 zero bytes and the frame |
| H264Frame.FrameCache.Clean | src/camera/h264_frame_proc.c:211-220 | Nothing counts as seen any more |
| Base64.Base64Encode | src/sub_client.c:91-128 | The output array holds the text of the bytes, a terminator, and nothing else new |
| Base64.EncodeGroup | src/sub_client.c:96-125 | One turn writes four symbols for up to three bytes |
| Base64.AlphabetOrder | src/sub_client.c:89-89 | Each sextet's symbol is the one at its place in the alphabet |
| Base64.GroupIsNumber | src/sub_client.c:96-125 | The four sextets of a group are the 24 bits of its three bytes, from the highest down |
| Base64.JoinTwoAndFour | src/sub_client.c:102-110 | The masked shifts of two bytes give the second six bits |
| Base64.JoinFourAndTwo | src/sub_client.c:113-120 | And the third |
| Base64.DecodeEncode | src/sub_client.c:91-128 | A decoder for section 4 of RFC 4648 gives back every byte sequence |
| Base64.EncodeDecode | src/sub_client.c:91-128 | The decoder accepts nothing but encoder output |
| Base64.EncodedShape | src/sub_client.c:91-128 | Four symbols for every three bytes begun, all of the alphabet but for padding in the last places |
| Base64.TestVectors | src/sub_client.c:91-128 | The vectors of section 10 of RFC 4648 |
| WaveFile.WaveWriter.Open | src/camera/pgWaveFile.c:31-137 | Opening succeeds exactly for a known format when every header write is complete; the file is then the whole header, and after a failure a part of it with no file open |
| WaveFile.WaveWriter.PutHeader | src/camera/pgWaveFile.c:43-124 | A header piece is appended as far as the device takes it, and succeeds exactly when complete |
| WaveFile.HeaderLayout | src/camera/pgWaveFile.c:43-124 | The header byte by byte: the names in ASCII and every number with its lowest byte first, at its place in the format |
| WaveFile.OpenedAs | src/camera/pgWaveFile.c:69-97 | One channel of 16-bit samples for the formats 0 and 1, of 8-bit samples for 6 and 7, with the block and byte rates that follow, and no other format |
| WaveFile.WaveWriter.Write | src/camera/pgWaveFile.c:159-172 | Exactly the accepted bytes are appended and returned as an int; -1 without an open file |
| WaveFile.WaveWriter.Close | src/camera/pgWaveFile.c:139-157 | Both length fields are overwritten in place as far as the device takes them, all else is kept |
| WaveFile.CountedIsLength | src/camera/pgWaveFile.c:159-171 | The counter is the data length less the writes that look negative, modulo 2^32 |
| WaveFile.LengthsAgree | src/camera/pgWaveFile.c:139-148 | The patched RIFF length agrees with the file exactly when no write looks negative and the file is below 2^32, and then so does the data length |
| WaveFile.RoundTrip | src/camera/pgWaveFile.c:31-171 | A RIFF parser reads the closed file as the opened format and all accepted bytes exactly when the lengths agree and the bytes are even in number; otherwise it finds no well-formed file |

## Left out

- Pcm.Pcm.SyncPtr: the kernel's side of the ioctl is any number of single-frame steps within its reach; a device that
  overtakes the application (an xrun) stops instead. Without progress it returns only finitely often (`stalls`), which
  is what makes the busy loop of `pcm_mmap_transfer_areas` end.
- Pcm.Pcm.constructor: a size for which the boundary loop does not end has no result; device opening, hardware
  parameters and mmap are not modelled.
- Pcm.Pcm.MmapTransfer: counts frames; the conversion between bytes and frames is not modelled, and copies address the
  caller's buffer by frame, without an overflow of byte offsets. The branches for a negative `avail` or `commit` cannot
  be taken and are left out. Behind a failed wait that takes the pointer out of step nothing more is claimed about the
  stream; one that resets a pointer at the start of the boundary changes nothing.
- PcmSchedules.RoundsMeetCornerExactly: a device that runs when the call begins, waits that succeed, and at most INT_MAX
  frames; which schedules start a stopped device at its threshold is not stated.
- Pcm.Pcm.Wait: timeouts, poll flags and the device states behind them are one nondeterministic result.
- AudioQueue.ExclusionAndOrder: the order of frames is that of the convert library, which is an atomic FIFO here.
- AudioQueue: the timer branch of `AudioOutputThreadProc` (lines 104-127), which resets its start stamp on every turn
  while its counter is 0; the mutex and condition are initialised before the thread runs, and the queue is not freed
  under it.
- OsdText: characters of vector fonts (`fill_area_map_per_char`), outline colours and the branch for a background that
  is not transparent, which line 713 of `src/camera/osd_functions.c` never selects.
- OsdLayout.ConvertText: the pixel buffer is clear on entry, as its callers allocate it; the memset of line 782 counts
  bytes and clears only the first quarter. Percentages whose product exceeds an int are not modelled.
- LatticeFont.LatticeLibraryIsLegal: characters whose glyph lies outside a short font file are not covered, because the
  code reads past the file there. `char` is unsigned on the target.
- OsdDate.UpdateDateString: a changed character that is not a digit makes the code read outside the strip; the driver
  calls around the loop, and a driver that reports another width than the layout used, are not modelled.
- OsdDate.ShowRunningDate: the thread's first date is the one that was set up; a tick in between is not modelled.
- SocksUrl.ParseSocksUrl: allocation never fails; earlier values in the configuration are overwritten without being
  freed; a port of more digits than an int holds has its mathematical value.
- SocksGrammar.RoundTrip: empty parts and separators in the host have no printed form.
- MotionDetect: resizing, cropping, difference and erosion are one abstract comparison for which a frame compared with
  itself has no changes; the state counter does not overflow.
- H264Frame.FrameCache.FrameProcData: frames to assemble whose size, with the caches, rounds up beyond 2^32 bytes. There
  the 32-bit size of lines 168-171 wraps to a small one and the copy leaves the buffer, so there is no result to state. The
  copying half of `H264GetNALBlock` (lines 57-97) is only reached through the fill calls, which find no start code.
- Base64.Base64Encode: bytes are numbers outside the masked shifts, which are bit operations.
- WaveFile.WaveWriter.Close: the device's answer to each write is a parameter; buffering and the result of fclose are
  not modelled. An already open file is abandoned by Open, as in the code.
- The rest of the repository: MQTT client, JSON, shell commands, menus, the ADI drivers, ONVIF and XML, BMP reading,
  `ircut.c`, volume and channel helpers, which would add only easy members or are not visible in source.
