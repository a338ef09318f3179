# Terminal display driver: a verified model

This project models the Zephyr `terminal_display` driver, which presents an ANSI
terminal on a serial line as a pixel display, and proves properties of the model.
It has two parts.

- **The colour quantizer** (`rgb24.c`, module `Rgb24` in `rgb24.dfy`). An RGB24
  colour is mapped onto the 6x6x6 colour cube of the xterm 256-colour palette,
  which is palette entries 16..231. `To256` is the source's scanning loop. It is
  proved to return 16 plus `CubeIndex`. `CubeIndex` is the entry assembled from
  the nearest level of each channel, and it is proved to be the unique first
  minimum of the L1 error over all 216 entries.
- **The driver** (`terminal_display.c`, class `TerminalDisplay.Display` in
  `terminal_display.dfy`). The driver keeps three pieces of state:
  - a row-major pixel surface (`buffer`) with one dirty bit per pixel (`dirty`);
  - the blanking state (`on`, `previouslyOn`);
  - the worker's semaphore, whose count is limited to 1 (`wake`).

  The bytes sent to the terminal are the field `output`. A ghost field `sent`
  holds every pixel sent so far, as `Frames.Emission` values, and the class
  invariant `Valid` says that `output` is exactly the encoding of `sent`.

  The surface invariant `ShowsStored` adds what the dirty bits mean. Unless the
  display is blanked, every cell whose dirty bit is clear, and which has been sent
  at least once, was last sent with its colour as currently stored. This is
  `Frames.Clean`, which reads the colour last sent to a cell with
  `Frames.LastSent`. The constructor establishes the invariant and every
  operation keeps it. While blanked it does not hold, because the clear pass
  sends black and leaves the bits alone. The restore pass re-establishes it:
  afterwards every cell was last sent with its stored colour.

  The operations and their models:
  - `Write` is `terminal_display_write`: it copies a block into the surface and marks the changed cells dirty.
  - `WritePixel` is `terminal_display_write_pixel`: it sends the bytes for one pixel.
  - `BufferPixel` is `terminal_display_get_buffer_pixel`. Its requires are the source's assertions, at lines 173-174.
  - `RenderPass` is one iteration of the worker loop after the semaphore is taken. It dispatches to one of three passes:
    - `ClearScreen`: black everywhere;
    - `RestoreScreen`: the stored colours, clearing the dirty bits;
    - `FlushDirty`: only the cells that are dirty, using test-and-clear.
  - `WorkerStep` is the whole loop iteration, including the semaphore.

The module `Frames` (`frames.dfy`) describes what the passes and a write do,
as values. `PassFrame` is the sequence of emissions a pass makes. `Written` and
`MarkedDirty` are the surface and the bitmap after a copy. Each method states its
effect in terms of these functions, and lemmas prove what they mean:
- which cells a pass emits, with which colour;
- that it emits them in strictly increasing row-major order, so no cell twice;
- where each block pixel lands.

The module `Encoding` (`encoding.dfy`) gives the bytes of one emission, as
ECMA-48 control sequences:
- CUP, section 8.3.21 of ECMA-48;
- SGR with the xterm 256-colour background parameters `48;5;n`, section 8.3.117;
- an SGR reset.

`Encoding` also gives a decoder for these bytes and a round-trip lemma.
`Arith` (`arith.dfy`) holds the row-major index arithmetic.

On one point the model follows the code where a reader might expect otherwise.
While blanking stays on (`on` and `previouslyOn` both true), the worker takes the
flush branch (terminal_display.c:321-337). Dirty pixels are then sent with their
stored colours even though the display is blanked. `PassFor` returns `Flush`
whenever `on == previouslyOn`, and `RenderPass` is proved to behave that way.

## Model

| member | source | states |
|---|---|---|
| Rgb24.Equal | drivers/terminal_display/rgb24.c:11-16 | channel-wise comparison holds exactly when the two colours are equal (hence reflexive and symmetric) |
| Rgb24.IsGrayscale | drivers/terminal_display/rgb24.c:18-22 | holds exactly when the colour is the grey whose three channels equal its red channel |
| Rgb24.LevelsOfCube | drivers/terminal_display/rgb24.c:26 | on cube coordinates 0..5 the level is the xterm level (0, 95, 135, 175, 215, 255), i.e. 0 for coordinate 0 and 40p + 55 otherwise, never above 255 |
| Rgb24.CoordinatesInCube | drivers/terminal_display/rgb24.c:38-42 | the coordinates the scan passes for entry i are all below 6 (so the `> 215` branch is never taken) and recombine to i |
| Rgb24.CubeEntryCoordinates | drivers/terminal_display/rgb24.c:40-44 | entry 36a + 6b + c has coordinates (a, b, c), and its total distance is the sum of the three channel distances |
| Rgb24.NearestLevelIsNearest | drivers/terminal_display/rgb24.c:24-28 | the chosen level of a channel is no farther than any of the six levels, and strictly nearer than every lower level |
| Rgb24.NearestLevelError | drivers/terminal_display/rgb24.c:24-28 | no channel value is more than 47 from its nearest level |
| Rgb24.CubeIndexIsNearest | drivers/terminal_display/rgb24.c:38-50 | separability: the entry built from the per-channel nearest levels has the least total distance of all 216, and every lower-indexed entry is strictly farther |
| Rgb24.NearestIsUnique | drivers/terminal_display/rgb24.c:45-49 | with the strict comparison, at most one entry is the first minimum |
| Rgb24.SentinelIsBeaten | drivers/terminal_display/rgb24.c:34 | the nearest entry is at most 141 away, below the starting threshold 240 |
| Rgb24.WorstCaseError | drivers/terminal_display/rgb24.c:34 | the bound 141 is attained, by grey 47 |
| Rgb24.LevelOfGreyRamp | drivers/terminal_display/rgb24.c:26 | for an index above 215 the branch computes 10 * index - 2152 = 8 + 10 (index - 216); for 216..239 this is the grey-ramp level of palette entry 232 + (index - 216) |
| Rgb24.DistanceIsAbsolute | drivers/terminal_display/rgb24.c:24-28 | the distance is the absolute difference between the target and the level, and it is 0 exactly when they are equal |
| Rgb24.ExactEntry | drivers/terminal_display/rgb24.c:40-44 | an entry's total distance is 0 exactly when each channel equals that entry's level |
| Rgb24.BlackCorner | drivers/terminal_display/rgb24.c:26 | black is cube entry 0 at distance 0 |
| Rgb24.WhiteCorner | drivers/terminal_display/rgb24.c:26 | white is cube entry 215 at distance 0 |
| Rgb24.ScanTakes | drivers/terminal_display/rgb24.c:45-48 | an entry strictly closer than the best so far becomes the best, preserving the scan's invariant |
| Rgb24.ScanKeeps | drivers/terminal_display/rgb24.c:45 | an entry that is not strictly closer leaves the best unchanged, preserving the scan's invariant |
| Rgb24.ScanFindsCubeIndex | drivers/terminal_display/rgb24.c:34-50 | when the scan has seen all 216 entries, its best is the first minimum and equals `CubeIndex` |
| Rgb24.To256 | drivers/terminal_display/rgb24.c:30-53 | the loop returns a palette index in 16..231 whose cube entry is the first minimum of the total distance, namely 16 + `CubeIndex` |
| Encoding.Decimal | drivers/terminal_display/terminal_display.c:200 | `%d` of a non-negative number is a non-empty run of digits with no leading zero |
| Encoding.DecimalValue | drivers/terminal_display/terminal_display.c:200 | the digits of `%d` denote the number printed |
| Encoding.ParseDecimal | drivers/terminal_display/terminal_display.c:200 | the digits of `%d` are read back, and nothing more, when no digit follows |
| Encoding.CursorPositionForm | drivers/terminal_display/terminal_display.c:200 | the cursor command is ESC [, then only digits and `;`, then the final byte H, at least 6 bytes in all |
| Encoding.BackgroundForm | drivers/terminal_display/terminal_display.c:206 | the colour command is ESC [, then only digits and `;`, then m and two spaces, at least 10 bytes in all |
| Encoding.ResetBytes | drivers/terminal_display/terminal_display.c:210 | the reset is the four bytes ESC [ 0 m |
| Encoding.DecimalLength | drivers/terminal_display/terminal_display.c:200 | a number below 10^k prints in at most k digits |
| Encoding.CursorPositionFits | drivers/terminal_display/terminal_display.c:197-200 | for 16-bit coordinates the cursor command and its terminating NUL fit the 32-byte buffer, so `snprintf` never truncates |
| Encoding.BackgroundFits | drivers/terminal_display/terminal_display.c:205-206 | for an 8-bit index the colour command and its terminating NUL fit the 32-byte buffer |
| Encoding.PaletteIndex | drivers/terminal_display/terminal_display.c:193 | the colour index sent lies in the cube part 16..231 of the palette |
| Encoding.EncodePixel | drivers/terminal_display/terminal_display.c:186-211 | the bytes for one pixel are empty exactly when the position is off the display |
| Encoding.DecodeCommands | drivers/terminal_display/terminal_display.c:200-211 | decoding a cursor command, a colour command and the reset recovers the row, the column and the index, and consumes exactly those bytes |
| Encoding.DecodeEncodePixel | drivers/terminal_display/terminal_display.c:196-211 | decoding the bytes of an on-display pixel gives row y + 1, column 2x + 1 and the quantized colour, and consumes exactly those bytes |
| Frames.TranscriptIsEncoding | drivers/terminal_display/terminal_display.c:201-211 | the class invariant's byte relation is the encoding of all pixels sent |
| Frames.EncodeAllAppend | drivers/terminal_display/terminal_display.c:201-211 | sending one more pixel appends exactly its bytes |
| Frames.EncodeAllConcat | drivers/terminal_display/terminal_display.c:201-211 | the bytes of two runs of pixels are the bytes of the first followed by those of the second |
| Frames.PixelSent | drivers/terminal_display/terminal_display.c:200-211 | the three writes (cursor position, background, reset) make up the pixel's encoding and extend the transcript by that pixel |
| Frames.CellSent | drivers/terminal_display/terminal_display.c:299-337 | sending a selected cell at its position with its colour extends the row-major scan by that cell |
| Frames.CellSkipped | drivers/terminal_display/terminal_display.c:329 | a cell that is not selected adds nothing to the scan |
| Frames.ScanSound | drivers/terminal_display/terminal_display.c:299-337 | every emission of a scan is a selected cell of the scanned range at its own position with its colour |
| Frames.ScanComplete | drivers/terminal_display/terminal_display.c:299-337 | every selected cell of the scanned range is emitted |
| Frames.ScanOrdered | drivers/terminal_display/terminal_display.c:299-337 | the emissions of a scan are strictly increasing in row-major order |
| Frames.PassFor | drivers/terminal_display/terminal_display.c:294-321 | clear exactly when blanking turned on, restore exactly when it turned off, flush exactly when it did not change |
| Frames.PassFrameIsScan | drivers/terminal_display/terminal_display.c:294-337 | each pass's emissions are the row-major scan of its colours and selection |
| Frames.PassDone | drivers/terminal_display/terminal_display.c:299-337 | once the scan has covered every cell, what was sent is the whole pass and the bytes sent are its encoding |
| Frames.PassFrameSound | drivers/terminal_display/terminal_display.c:294-337 | every emission of a pass is an on-display cell the pass selects (all cells, or the dirty ones for the flush), with black for the clear pass and the stored colour otherwise |
| Frames.PassFrameComplete | drivers/terminal_display/terminal_display.c:294-337 | every cell the pass selects is emitted, at its position, with the colour the pass shows |
| Frames.PassFrameOrdered | drivers/terminal_display/terminal_display.c:299-337 | a pass emits in strictly increasing row-major order, hence each cell at most once |
| Frames.Wrap16Congruent | drivers/terminal_display/terminal_display.c:112-113 | the conversion to `uint16_t` keeps values already in range and otherwise differs from its argument by a multiple of 2^16 |
| Frames.Wrap16Inverse | drivers/terminal_display/terminal_display.c:112-113 | inside the 16-bit range, adding an offset modulo 2^16 is undone by subtracting it |
| Frames.BlockSourceInverse | drivers/terminal_display/terminal_display.c:111-113 | a display position takes block pixel (sx, sy) exactly when it is that pixel's destination modulo 2^16 |
| Frames.BlockSourceOfDestination | drivers/terminal_display/terminal_display.c:111-115 | the same, for a cell index of the surface |
| Frames.WriteStepSkips | drivers/terminal_display/terminal_display.c:115-119 | a block pixel whose destination is off the display changes neither surface nor bitmap |
| Frames.StepDestination | drivers/terminal_display/terminal_display.c:112-121 | an on-display destination is a surface cell, and the only cell the block pixel reaches |
| Frames.WrittenStepCopies | drivers/terminal_display/terminal_display.c:121-126 | copying a block pixel sets exactly its destination cell |
| Frames.MarkedStepCopies | drivers/terminal_display/terminal_display.c:122-126 | the same copy sets the destination's dirty bit when the value changes, and no other bit |
| Frames.WrittenBlockPixel | drivers/terminal_display/terminal_display.c:106-128 | after the whole copy, each block pixel with an on-display destination is stored there, and that cell is dirty exactly when it was dirty before or its value changed |
| Frames.LastSentAppend | drivers/terminal_display/terminal_display.c:299-337 | sending one more pixel changes the colour last sent to its own cell only |
| Frames.LastSentScan | drivers/terminal_display/terminal_display.c:299-337 | after a scan, a cell it selected was last sent with its scanned colour, and any other cell is as before |
| Frames.WriteKeepsClean | drivers/terminal_display/terminal_display.c:122-126 | a write keeps the surface invariant: each cell whose value changes becomes dirty, and the others keep their value |
| Frames.RestoreCleans | drivers/terminal_display/terminal_display.c:307-320 | after the restore pass every cell was last sent with its stored colour, so the invariant holds with all bits clear |
| Frames.FlushKeepsClean | drivers/terminal_display/terminal_display.c:321-337 | the flush sends every dirty cell with its stored colour, and it keeps the invariant with the bits it clears |
| Frames.PassKeepsClean | drivers/terminal_display/terminal_display.c:292-339 | whenever blanking is off after a pass, the invariant holds, both when the pass is a restore and when it is a flush |
| TerminalDisplay.ExpectedSize | drivers/terminal_display/terminal_display.c:99 | the expected byte count is three bytes for each of the width * height pixels |
| TerminalDisplay.SetPixelFormat | drivers/terminal_display/terminal_display.c:221-231 | succeeds exactly for RGB_888, otherwise -ENOTSUP |
| TerminalDisplay.SetOrientation | drivers/terminal_display/terminal_display.c:233-243 | succeeds exactly for the normal orientation, otherwise -ENOTSUP |
| TerminalDisplay.Read | drivers/terminal_display/terminal_display.c:143-149 | always -ENOTSUP |
| TerminalDisplay.GetFramebuffer | drivers/terminal_display/terminal_display.c:151-154 | there is no framebuffer |
| TerminalDisplay.SetBrightness | drivers/terminal_display/terminal_display.c:156-159 | always -ENOTSUP |
| TerminalDisplay.SetContrast | drivers/terminal_display/terminal_display.c:161-164 | always -ENOTSUP |
| TerminalDisplay.Display.constructor | drivers/terminal_display/terminal_display.c:349-368 | the initial state: black surface, no dirty bits, blanking on but not yet acted on, semaphore at 0, nothing sent; the surface invariant holds |
| TerminalDisplay.Display.BufferPixel | drivers/terminal_display/terminal_display.c:166-177 | the position's row-major index `y * xRes + x` is inside the surface, and the colour returned is the one stored there |
| TerminalDisplay.Display.GetCapabilities | drivers/terminal_display/terminal_display.c:214-219 | the resolution, RGB_888 as the only and current format, normal orientation |
| TerminalDisplay.Display.Init | drivers/terminal_display/terminal_display.c:258-274 | -ENODEV without a ready terminal and no change; otherwise 0 and the worker is woken; the surface invariant is kept |
| TerminalDisplay.Display.BlankingOn | drivers/terminal_display/terminal_display.c:59-67 | blanking is commanded on and the worker is woken; the surface invariant is kept |
| TerminalDisplay.Display.BlankingOff | drivers/terminal_display/terminal_display.c:69-76 | blanking is commanded off and the worker is woken; the surface invariant is kept |
| TerminalDisplay.Display.Write | drivers/terminal_display/terminal_display.c:78-141 | an undersized block gives -EINVAL and changes nothing; otherwise 0, the surface and bitmap become `Written` and `MarkedDirty` of the block, and the worker is woken exactly when the frame is complete (an already raised signal stays raised); the surface invariant is kept |
| TerminalDisplay.Display.CopyBlock | drivers/terminal_display/terminal_display.c:106-128 | the two copy loops leave the surface and bitmap as `Written` and `MarkedDirty` of the whole block |
| TerminalDisplay.Display.CopyBlockRow | drivers/terminal_display/terminal_display.c:109-127 | one row of the block extends the copy by that row |
| TerminalDisplay.Display.CopyBlockPixel | drivers/terminal_display/terminal_display.c:111-126 | one block pixel extends the copy by that pixel, wrapping the destination modulo 2^16 and skipping off-display destinations |
| TerminalDisplay.Display.StorePixel | drivers/terminal_display/terminal_display.c:121-126 | the cell takes the colour, and its dirty bit is set exactly when the colour differs from the stored one; no other cell or bit changes |
| TerminalDisplay.Display.WritePixel | drivers/terminal_display/terminal_display.c:179-212 | appends exactly the pixel's encoding to the output (nothing when off the display) and records the pixel as sent |
| TerminalDisplay.Display.ClearScreen | drivers/terminal_display/terminal_display.c:294-306 | sends the clear pass, every cell black in row-major order, and its bytes |
| TerminalDisplay.Display.ClearRow | drivers/terminal_display/terminal_display.c:301-304 | one row of the clear pass extends the scan by that row |
| TerminalDisplay.Display.RestoreScreen | drivers/terminal_display/terminal_display.c:307-320 | sends the restore pass, every cell with its stored colour in row-major order, and its bytes, and leaves every dirty bit clear |
| TerminalDisplay.Display.RestoreRow | drivers/terminal_display/terminal_display.c:312-318 | one row of the restore pass extends the scan and clears that row's dirty bits, leaving the bits of later rows as they were |
| TerminalDisplay.Display.RestoreCell | drivers/terminal_display/terminal_display.c:314-317 | one cell is sent with its stored colour and its dirty bit, and only it, is cleared |
| TerminalDisplay.Display.ClearDirtyBit | drivers/terminal_display/terminal_display.c:317 | clears one bit and no other |
| TerminalDisplay.Display.TestAndClearDirtyBit | drivers/terminal_display/terminal_display.c:329 | returns the bit as it was and clears it, and no other |
| TerminalDisplay.Display.FlushDirty | drivers/terminal_display/terminal_display.c:321-337 | sends exactly the dirty cells with their stored colours in row-major order, and their bytes, and leaves the bitmap empty |
| TerminalDisplay.Display.FlushRow | drivers/terminal_display/terminal_display.c:327-335 | one row of the flush extends the scan by that row's dirty cells and clears its bits |
| TerminalDisplay.Display.FlushCell | drivers/terminal_display/terminal_display.c:329-334 | one cell's bit is tested and cleared, and the cell is sent exactly when the bit was set |
| TerminalDisplay.Display.RenderPass | drivers/terminal_display/terminal_display.c:292-339 | runs the pass the blanking state selects: what is sent and the resulting bitmap are those of `PassFor(on, previouslyOn)`; the surface is untouched, and afterwards `previouslyOn == on`; the surface invariant is kept |
| TerminalDisplay.Display.WorkerStep | drivers/terminal_display/terminal_display.c:286-340 | with the semaphore given it is taken and one render pass runs; without it nothing changes; the surface invariant is kept |
| TerminalDisplay.StartUp | drivers/terminal_display/terminal_display.c:258-306 | a new instance with a ready terminal: after the worker's first iteration the terminal has been sent every cell in black in row-major order, and blanking counts as acted on; the surface invariant holds, and the instance, whose arrays are fresh, can go on serving writes and worker passes |

## Left out

- The transport: `terminal_display_char_out` (terminal_display.c:43-57) pushes each byte to the UART. The model appends the bytes to `output` instead.
- Concurrency: the worker thread, `k_sem_take` blocking and the atomicity of the bitmap operations are modelled sequentially.
  - The semaphore with limit 1 is the boolean `wake`.
  - The `atomic_*` bit operations are plain array updates.
  - Producer and worker never interleave within a call.
- TerminalDisplay.Display.WorkerStep: a `k_sem_take` that would block (nothing given) is modelled as a step that does nothing.
- Logging: the `LOG_*` calls have no effect on state and are omitted.
- Device plumbing: the devicetree, the `TERMINAL_DISPLAY_DEFINE` instantiation and `device_is_ready` are left out.
  - The constructor takes the resolution as parameters.
  - `Init` takes the terminal's readiness as a parameter.
- `snprintf` truncation: formatting is the pure `Decimal`. `Encoding.CursorPositionFits` and `Encoding.BackgroundFits` prove that the 32-byte buffers at terminal_display.c:197 and 205 always hold the whole command, so truncation cannot happen.
- TerminalDisplay.ExpectedSize: computed with unbounded integers, so no C overflow is modelled.
  - `width * height` is computed in `int`, which overflows for blocks of more than 2^31 - 1 pixels.
  - The row-major indices `dy * x_resolution + dx` (terminal_display.c:125, 176, 317, 329) and `sy * desc->width + sx` (terminal_display.c:111) are also computed in `int`. They overflow for surfaces or blocks of more than 2^31 - 1 cells, where the model's unbounded integers do not.
  - On a 32-bit Zephyr target, `size_t` is 32 bits wide. The product times 3 then wraps from about 2^32 / 3 pixels, and the wrapped size can pass the check at terminal_display.c:100 with a buffer that is too small for the block.
- TerminalDisplay.Display.Write: `|source|` is taken to be `bufSize / 3` pixels. C does not check that the buffer really has that many bytes.
- TerminalDisplay.Display.Write: the descriptor's pitch is ignored, as in the source (see the disabled assertion at terminal_display.c:90). Rows are read `width` apart.
- Rgb24.Level, Rgb24.Distance, Rgb24.RedCoord, Rgb24.GreenCoord, Rgb24.BlueCoord and Rgb24.EntryDistance carry no `ensures` of their own. Their properties are the lemmas `LevelsOfCube`, `LevelOfGreyRamp`, `DistanceIsAbsolute`, `CoordinatesInCube`, `CubeEntryCoordinates` and `ExactEntry`. This keeps the proofs over all 216 entries small.
- Rgb24.Distance: `abs` over a `uint32_t` subtraction is modelled as the mathematical absolute difference. The operands are small enough that the two's-complement round trip gives the same value.
- Rgb24.To256: the source's `uint16_t` loop counter and `uint32_t` distances are unbounded integers, because they cannot overflow here. The counter is at most 216. Inside the scan every coordinate is below 6 (`CoordinatesInCube`), so every level is at most 255, each channel distance at most 255, and the total at most 3 * 255 = 765.
- The samples and tests under samples/ and tests/, and the header files, are not part of this model. The `rgb24` struct is the datatype `Rgb24.RGB`.
