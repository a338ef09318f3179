/**
 * One instance of the terminal display driver: a row-major RGB24 pixel surface
 * with one dirty bit per pixel, the blanking state, the render worker's wake
 * signal, and the byte stream sent to the terminal. The producer side (`Write`,
 * `BlankingOn`, `BlankingOff`) changes the surface and raises the signal; one
 * iteration of the render worker is `WorkerStep`.
 */
module TerminalDisplay {

  import opened Rgb24
  import opened Encoding
  import opened Frames
  import Arith

  const EINVAL := 22
  const ENOTSUP := 134
  const ENODEV := 19

  /** `struct display_buffer_descriptor`: the block's byte size, dimensions, pitch, and whether more of the frame follows. */
  datatype BufferDescriptor = BufferDescriptor(
    bufSize: nat, width: uint16, height: uint16, pitch: uint16, frameIncomplete: bool)

  /** The least byte size a block of these dimensions needs: three bytes per pixel. */
  function ExpectedSize(desc: BufferDescriptor): (size: nat)
    ensures size % 3 == 0 && size / 3 == desc.width * desc.height
  {
    desc.width * desc.height * 3
  }

  /** The pixel formats of the display API; the driver supports RGB_888 only. */
  datatype PixelFormat = Rgb888 | Mono01 | Mono10 | Argb8888 | Rgb565 | Bgr565 | L8 | Al88

  datatype Orientation = Normal | Rotated90 | Rotated180 | Rotated270

  /** `struct display_capabilities` as the driver fills it in. */
  datatype Capabilities = Capabilities(
    xResolution: uint16, yResolution: uint16, supportedPixelFormats: set<PixelFormat>,
    currentPixelFormat: PixelFormat, currentOrientation: Orientation)

  /** `terminal_display_write_pixel_format`: only RGB_888 is accepted. */
  function SetPixelFormat(format: PixelFormat): (status: int)
    ensures status == 0 <==> format == Rgb888
    ensures status != 0 ==> status == -ENOTSUP
  {
    if format != Rgb888 then -ENOTSUP else 0
  }

  /** `terminal_display_set_orientation`: only the normal orientation is accepted. */
  function SetOrientation(orientation: Orientation): (status: int)
    ensures status == 0 <==> orientation == Normal
    ensures status != 0 ==> status == -ENOTSUP
  {
    if orientation != Normal then -ENOTSUP else 0
  }

  /** `terminal_display_read`: reading back is not supported, whatever the arguments. */
  function Read(x: uint16, y: uint16, desc: BufferDescriptor): (status: int)
    ensures status < 0 && status == -ENOTSUP
  {
    -ENOTSUP
  }

  /** `terminal_display_set_brightness`: not supported. */
  function SetBrightness(brightness: uint8): (status: int)
    ensures status < 0 && status == -ENOTSUP
  {
    -ENOTSUP
  }

  /** `terminal_display_set_contrast`: not supported. */
  function SetContrast(contrast: uint8): (status: int)
    ensures status < 0 && status == -ENOTSUP
  {
    -ENOTSUP
  }

  /** `terminal_display_get_framebuffer`: there is no directly addressable framebuffer. */
  function GetFramebuffer(): (framebuffer: Option<nat>)
    ensures framebuffer.None?
  {
    None
  }

  class Display {
    const xRes: uint16
    const yRes: uint16
    /** The stored colour of every pixel, row-major. */
    const buffer: array<RGB>
    /** Set for a pixel whose stored colour has changed since it was last sent. */
    const dirty: array<bool>
    /** The commanded blanking state, and the one the last pass acted on. */
    var on: bool
    var previouslyOn: bool
    /** The worker's semaphore, whose count is limited to 1: a pass has been requested. */
    var wake: bool
    /** Every byte sent to the terminal so far. */
    var output: seq<uint8>
    /** Every pixel sent to the terminal so far, in the order sent. */
    ghost var sent: seq<Emission>

    /**
     * The surface and the bitmap have one entry per pixel, and the bytes on the
     * wire are exactly the encodings of the pixels sent, one after the other.
     */
    ghost predicate Valid()
      reads this`output, this`sent
    {
      buffer.Length == xRes * yRes && dirty.Length == xRes * yRes &&
      Transcript(xRes, yRes, output, sent)
    }

    /**
     * The surface invariant: unless the display is blanked, every cell whose
     * dirty bit is clear and that the terminal has received shows on the
     * terminal with its stored colour. While blanked it does not hold, since
     * the clear pass sends black and leaves the bits alone.
     */
    ghost predicate ShowsStored()
      reads this`output, this`sent, this`previouslyOn, buffer, dirty
    {
      Valid() && (!previouslyOn ==> Clean(xRes, buffer[..], dirty[..], sent))
    }

    /**
     * The state the instance definition gives: a black surface, no dirty
     * bits, blanking on but not yet acted on, and a semaphore at 0.
     */
    constructor (width: uint16, height: uint16)
      ensures Valid() && xRes == width && yRes == height
      ensures buffer[..] == Repeat(width * height, Black) && dirty[..] == Repeat(width * height, false)
      ensures on && !previouslyOn && !wake && output == [] && sent == []
      ensures fresh(buffer) && fresh(dirty)
      ensures ShowsStored()
    {
      xRes, yRes := width, height;
      buffer := new RGB[width * height](_ => Black);
      dirty := new bool[width * height](_ => false);
      on, previouslyOn, wake := true, false, false;
      output := [];
      sent := [];
    }

    /** `terminal_display_get_capabilities` */
    function GetCapabilities(): (caps: Capabilities)
      ensures caps.xResolution == xRes && caps.yResolution == yRes
      ensures caps.supportedPixelFormats == {caps.currentPixelFormat} == {Rgb888}
      ensures caps.currentOrientation == Normal
    {
      Capabilities(xRes, yRes, {Rgb888}, Rgb888, Normal)
    }

    /** `terminal_display_init`: without a ready terminal it fails; otherwise it wakes the worker for its first pass. */
    method Init(terminalReady: bool) returns (status: int)
      modifies this`wake
      ensures terminalReady ==> status == 0 && wake
      ensures !terminalReady ==> status == -ENODEV && wake == old(wake)
      ensures old(ShowsStored()) ==> ShowsStored()
    {
      if !terminalReady {
        return -ENODEV;
      }
      wake := true;
      status := 0;
    }

    /** `terminal_display_blanking_on` */
    method BlankingOn() returns (status: int)
      modifies this`on, this`wake
      ensures status == 0 && on && wake
      ensures old(ShowsStored()) ==> ShowsStored()
    {
      on := true;
      wake := true;
      status := 0;
    }

    /** `terminal_display_blanking_off` */
    method BlankingOff() returns (status: int)
      modifies this`on, this`wake
      ensures status == 0 && !on && wake
      ensures old(ShowsStored()) ==> ShowsStored()
    {
      on := false;
      wake := true;
      status := 0;
    }

    /** `terminal_display_get_buffer_pixel`: the stored colour of an on-display position. */
    function BufferPixel(x: uint16, y: uint16): (colour: RGB)
      requires Valid() && x < xRes && y < yRes
      reads this, buffer
      ensures y * xRes + x < buffer.Length && colour == buffer[y * xRes + x]
    {
      Arith.RowMajorBound(xRes, yRes, x, y);
      buffer[y * xRes + x]
    }

    /**
     * `terminal_display_write`: copies a `width` by `height` block whose top-left
     * corner goes to `(x, y)`. An undersized block is refused with no effect.
     * Otherwise every block pixel whose destination, computed modulo 2^16, is on
     * the display is stored there, dirty bits are set for the cells whose value
     * changed, and a complete frame wakes the worker.
     */
    method Write(x: uint16, y: uint16, desc: BufferDescriptor, source: seq<RGB>) returns (status: int)
      requires Valid()
      requires |source| == desc.bufSize / 3
      modifies buffer, dirty, this`wake
      ensures desc.bufSize < ExpectedSize(desc) ==>
        status == -EINVAL && buffer[..] == old(buffer[..]) && dirty[..] == old(dirty[..]) && wake == old(wake)
      ensures desc.bufSize >= ExpectedSize(desc) ==>
        status == 0 &&
        buffer[..] == Written(old(buffer[..]), xRes, x, y, desc.width, desc.height, source, desc.width * desc.height) &&
        dirty[..] == MarkedDirty(old(dirty[..]), old(buffer[..]), xRes, x, y, desc.width, desc.height, source,
                                 desc.width * desc.height) &&
        wake == (old(wake) || !desc.frameIncomplete)
      ensures old(ShowsStored()) ==> ShowsStored()
    {
      if desc.bufSize < ExpectedSize(desc) {
        return -EINVAL;
      }
      ghost var shown, buffer0, dirty0 := ShowsStored(), buffer[..], dirty[..];
      CopyBlock(x, y, desc, source);
      if shown && !previouslyOn {
        WriteKeepsClean(buffer0, dirty0, xRes, x, y, desc.width, desc.height, source, desc.width * desc.height, sent);
      }
      if !desc.frameIncomplete {
        wake := true;
      }
      status := 0;
    }

    /** The copy loops of `terminal_display_write`, over the block's rows and then its columns. */
    method CopyBlock(x: uint16, y: uint16, desc: BufferDescriptor, source: seq<RGB>)
      requires Valid() && desc.width * desc.height <= |source|
      modifies buffer, dirty
      ensures buffer[..] == Written(old(buffer[..]), xRes, x, y, desc.width, desc.height, source, desc.width * desc.height)
      ensures dirty[..] == MarkedDirty(old(dirty[..]), old(buffer[..]), xRes, x, y, desc.width, desc.height, source,
                                       desc.width * desc.height)
    {
      ghost var buffer0, dirty0 := buffer[..], dirty[..];
      ghost var total := desc.width * desc.height;
      ghost var n: nat := 0;
      var sy: uint16 := 0;
      while sy < desc.height
        invariant Valid() && sy <= desc.height && n == sy * desc.width && n <= |source|
        invariant buffer[..] == Written(buffer0, xRes, x, y, desc.width, desc.height, source, n)
        invariant dirty[..] == MarkedDirty(dirty0, buffer0, xRes, x, y, desc.width, desc.height, source, n)
      {
        Arith.RowMajorNextRow(desc.width, desc.height, sy, n);
        CopyBlockRow(x, y, desc, source, sy, buffer0, dirty0, n);
        n := n + desc.width;
        sy := sy + 1;
      }
      Arith.RowMajorEnd(desc.width, desc.height, sy, n);
    }

    /**
     * One iteration of the outer copy loop in `terminal_display_write`: row `sy`
     * of the block, whose pixels are numbers `rowStart .. rowStart + width - 1`.
     */
    method CopyBlockRow(x: uint16, y: uint16, desc: BufferDescriptor, source: seq<RGB>, sy: uint16,
                        ghost buffer0: seq<RGB>, ghost dirty0: seq<bool>, ghost rowStart: nat)
      requires Valid() && |buffer0| == |dirty0| == buffer.Length
      requires sy < desc.height && rowStart == sy * desc.width && rowStart + desc.width <= |source|
      requires buffer[..] == Written(buffer0, xRes, x, y, desc.width, desc.height, source, rowStart)
      requires dirty[..] == MarkedDirty(dirty0, buffer0, xRes, x, y, desc.width, desc.height, source, rowStart)
      modifies buffer, dirty
      ensures buffer[..] == Written(buffer0, xRes, x, y, desc.width, desc.height, source, rowStart + desc.width)
      ensures dirty[..] == MarkedDirty(dirty0, buffer0, xRes, x, y, desc.width, desc.height, source, rowStart + desc.width)
    {
      ghost var n: nat := rowStart;
      var sx: uint16 := 0;
      while sx < desc.width
        invariant Valid() && sx <= desc.width && n == rowStart + sx
        invariant buffer[..] == Written(buffer0, xRes, x, y, desc.width, desc.height, source, n)
        invariant dirty[..] == MarkedDirty(dirty0, buffer0, xRes, x, y, desc.width, desc.height, source, n)
      {
        CopyBlockPixel(x, y, desc, source, sx, sy, buffer0, dirty0, rowStart, n);
        sx := sx + 1;
        n := n + 1;
      }
    }

    /**
     * One iteration of the copy loop in `terminal_display_write`: block pixel
     * `(sx, sy)`, number `n` in row-major order, goes to its destination modulo
     * 2^16, unless that is off the display.
     */
    method CopyBlockPixel(x: uint16, y: uint16, desc: BufferDescriptor, source: seq<RGB>, sx: uint16, sy: uint16,
                          ghost buffer0: seq<RGB>, ghost dirty0: seq<bool>, ghost rowStart: nat, ghost n: nat)
      requires Valid() && |buffer0| == |dirty0| == buffer.Length
      requires sx < desc.width && sy < desc.height && rowStart == sy * desc.width && n == rowStart + sx && n < |source|
      requires buffer[..] == Written(buffer0, xRes, x, y, desc.width, desc.height, source, n)
      requires dirty[..] == MarkedDirty(dirty0, buffer0, xRes, x, y, desc.width, desc.height, source, n)
      modifies buffer, dirty
      ensures buffer[..] == Written(buffer0, xRes, x, y, desc.width, desc.height, source, n + 1)
      ensures dirty[..] == MarkedDirty(dirty0, buffer0, xRes, x, y, desc.width, desc.height, source, n + 1)
    {
      var colour := source[sy * desc.width + sx];
      var dx: uint16 := Wrap16(x + sx);
      var dy: uint16 := Wrap16(y + sy);
      if dx >= xRes || dy >= yRes {
        WriteStepSkips(buffer0, dirty0, xRes, yRes, x, y, desc.width, desc.height, source, n, sx, sy);
        return;
      }
      var di := dy * xRes + dx;
      StepDestination(xRes, yRes, x, y, desc.width, desc.height, n, sx, sy, dx, dy, di);
      WrittenStepCopies(buffer0, xRes, yRes, x, y, desc.width, desc.height, source, n, di);
      MarkedStepCopies(dirty0, buffer0, xRes, yRes, x, y, desc.width, desc.height, source, n, di);
      StorePixel(dx, dy, colour);
    }

    /**
     * Stores `colour` at an on-display position when it differs from the stored
     * value, and then marks the position dirty; an equal colour changes nothing.
     */
    method StorePixel(x: uint16, y: uint16, colour: RGB)
      requires Valid() && x < xRes && y < yRes
      modifies buffer, dirty
      ensures y * xRes + x < buffer.Length
      ensures buffer[..] == old(buffer[..])[y * xRes + x := colour]
      ensures dirty[..] == old(dirty[..])[y * xRes + x := old(dirty[y * xRes + x]) || old(buffer[y * xRes + x]) != colour]
    {
      Arith.RowMajorBound(xRes, yRes, x, y);
      var i := y * xRes + x;
      if !Equal(BufferPixel(x, y), colour) {
        buffer[i] := colour;
        dirty[i] := true;
      }
    }

    /**
     * `terminal_display_write_pixel`: sends the bytes for one pixel, or nothing
     * when the position is off the display.
     */
    method WritePixel(x: uint16, y: uint16, colour: RGB)
      requires Valid()
      modifies this`output, this`sent
      ensures Valid()
      ensures output == old(output) + EncodePixel(xRes, yRes, x, y, colour)
      ensures x < xRes && y < yRes ==> sent == old(sent) + [Emission(x, y, colour)]
      ensures x >= xRes || y >= yRes ==> sent == old(sent)
    {
      if x >= xRes || y >= yRes {
        return;
      }
      var index := To256(colour);
      ghost var before := output;
      output := output + CursorPosition(y + 1, x * 2 + 1);
      output := output + Background(index);
      output := output + Reset;
      PixelSent(xRes, yRes, x, y, colour, index, before, output, sent);
      sent := sent + [Emission(x, y, colour)];
    }

    /** The clear branch of the worker loop: every position, in row-major order, in black. */
    method ClearScreen()
      requires Valid()
      modifies this`output, this`sent
      ensures Valid()
      ensures sent == old(sent) + PassFrame(Clear, xRes, yRes, buffer[..], dirty[..])
      ensures output == old(output) + EncodeAll(xRes, yRes, PassFrame(Clear, xRes, yRes, buffer[..], dirty[..]))
    {
      ghost var colours, emit := PassColours(Clear, buffer[..]), PassSelection(Clear, dirty[..]);
      ghost var k: nat := 0;
      var y: uint16 := 0;
      while y < yRes
        invariant Valid() && y <= yRes && k == y * xRes && k <= buffer.Length
        invariant sent == old(sent) + Scan(xRes, colours, emit, k)
      {
        Arith.RowMajorNextRow(xRes, yRes, y, k);
        k := ClearRow(y, colours, emit, old(sent), k);
        y := y + 1;
      }
      Arith.RowMajorEnd(xRes, yRes, y, k);
      PassDone(Clear, xRes, yRes, buffer[..], dirty[..], old(sent), sent, k);
    }

    /** Row `y` of the clear branch: cells `rowStart .. rowEnd - 1` of the scan. */
    method ClearRow(y: uint16, ghost colours: seq<RGB>, ghost emit: seq<bool>, ghost start: seq<Emission>, ghost rowStart: nat)
      returns (ghost rowEnd: nat)
      requires Valid() && y < yRes && rowStart == y * xRes && rowStart + xRes <= buffer.Length
      requires |colours| == buffer.Length && |emit| == buffer.Length
      requires forall j | rowStart <= j < rowStart + xRes :: emit[j] && colours[j] == Black
      requires sent == start + Scan(xRes, colours, emit, rowStart)
      modifies this`output, this`sent
      ensures Valid() && rowEnd == rowStart + xRes
      ensures sent == start + Scan(xRes, colours, emit, rowEnd)
    {
      rowEnd := rowStart;
      var x: uint16 := 0;
      while x < xRes
        invariant Valid() && x <= xRes && rowEnd == rowStart + x
        invariant sent == start + Scan(xRes, colours, emit, rowEnd)
      {
        ghost var before := sent;
        WritePixel(x, y, Black);
        CellSent(xRes, colours, emit, start, before, sent, rowEnd, x, y, Black);
        x := x + 1;
        rowEnd := rowEnd + 1;
      }
    }

    /**
     * The restore branch of the worker loop: every position, in row-major order,
     * with its stored colour; every dirty bit is cleared on the way.
     */
    method RestoreScreen()
      requires Valid()
      modifies this`output, this`sent, dirty
      ensures Valid()
      ensures sent == old(sent) + PassFrame(Restore, xRes, yRes, buffer[..], old(dirty[..]))
      ensures output == old(output) + EncodeAll(xRes, yRes, PassFrame(Restore, xRes, yRes, buffer[..], old(dirty[..])))
      ensures dirty[..] == Repeat(dirty.Length, false)
    {
      ghost var colours, emit := PassColours(Restore, buffer[..]), PassSelection(Restore, dirty[..]);
      ghost var k: nat := 0;
      var y: uint16 := 0;
      while y < yRes
        invariant Valid() && y <= yRes && k == y * xRes && k <= buffer.Length
        invariant sent == old(sent) + Scan(xRes, colours, emit, k)
        invariant forall j | 0 <= j < k :: !dirty[j]
      {
        Arith.RowMajorNextRow(xRes, yRes, y, k);
        k := RestoreRow(y, colours, emit, old(sent), k);
        y := y + 1;
      }
      Arith.RowMajorEnd(xRes, yRes, y, k);
      PassDone(Restore, xRes, yRes, buffer[..], old(dirty[..]), old(sent), sent, k);
    }

    /** Row `y` of the restore branch. */
    method RestoreRow(y: uint16, ghost colours: seq<RGB>, ghost emit: seq<bool>, ghost start: seq<Emission>, ghost rowStart: nat)
      returns (ghost rowEnd: nat)
      requires Valid() && y < yRes && rowStart == y * xRes && rowStart + xRes <= buffer.Length
      requires |colours| == buffer.Length && |emit| == buffer.Length
      requires forall j | rowStart <= j < rowStart + xRes :: emit[j] && colours[j] == buffer[j]
      requires sent == start + Scan(xRes, colours, emit, rowStart)
      requires forall j | 0 <= j < rowStart :: !dirty[j]
      modifies this`output, this`sent, dirty
      ensures Valid() && rowEnd == rowStart + xRes
      ensures sent == start + Scan(xRes, colours, emit, rowEnd)
      ensures forall j | 0 <= j < rowEnd :: !dirty[j]
      ensures forall j | rowEnd <= j < dirty.Length :: dirty[j] == old(dirty[j])
    {
      rowEnd := rowStart;
      var x: uint16 := 0;
      while x < xRes
        invariant Valid() && x <= xRes && rowEnd == rowStart + x
        invariant sent == start + Scan(xRes, colours, emit, rowEnd)
        invariant forall j | 0 <= j < rowEnd :: !dirty[j]
        invariant forall j | rowEnd <= j < dirty.Length :: dirty[j] == old(dirty[j])
      {
        RestoreCell(x, y, colours, emit, start, rowEnd);
        x := x + 1;
        rowEnd := rowEnd + 1;
      }
    }

    /** Position `(x, y)` of the restore branch: sent with its stored colour, then its dirty bit cleared. */
    method RestoreCell(x: uint16, y: uint16, ghost colours: seq<RGB>, ghost emit: seq<bool>, ghost start: seq<Emission>, ghost k: nat)
      requires Valid() && x < xRes && y < yRes && k == y * xRes + x && k < buffer.Length
      requires |colours| == buffer.Length && |emit| == buffer.Length && emit[k] && colours[k] == buffer[k]
      requires sent == start + Scan(xRes, colours, emit, k)
      modifies this`output, this`sent, dirty
      ensures Valid()
      ensures sent == start + Scan(xRes, colours, emit, k + 1)
      ensures !dirty[k] && forall j | 0 <= j < dirty.Length && j != k :: dirty[j] == old(dirty[j])
    {
      ghost var before := sent;
      var i := y * xRes + x;
      var colour := BufferPixel(x, y);
      WritePixel(x, y, colour);
      CellSent(xRes, colours, emit, start, before, sent, k, x, y, colour);
      ClearDirtyBit(i);
    }

    /** `atomic_clear_bit` on the dirty bitmap. */
    method ClearDirtyBit(i: nat)
      requires i < dirty.Length
      modifies dirty
      ensures dirty[..] == old(dirty[..])[i := false]
    {
      dirty[i] := false;
    }

    /** `atomic_test_and_clear_bit` on the dirty bitmap: the bit as it was, now cleared. */
    method TestAndClearDirtyBit(i: nat) returns (wasSet: bool)
      requires i < dirty.Length
      modifies dirty
      ensures wasSet == old(dirty[i])
      ensures dirty[..] == old(dirty[..])[i := false]
    {
      wasSet := dirty[i];
      dirty[i] := false;
    }

    /**
     * The dirty-only branch of the worker loop: every position, in row-major
     * order, has its dirty bit tested and cleared, and is sent with its stored
     * colour when the bit was set.
     */
    method FlushDirty()
      requires Valid()
      modifies this`output, this`sent, dirty
      ensures Valid()
      ensures sent == old(sent) + PassFrame(Flush, xRes, yRes, buffer[..], old(dirty[..]))
      ensures output == old(output) + EncodeAll(xRes, yRes, PassFrame(Flush, xRes, yRes, buffer[..], old(dirty[..])))
      ensures dirty[..] == Repeat(dirty.Length, false)
    {
      ghost var colours, emit := PassColours(Flush, buffer[..]), PassSelection(Flush, dirty[..]);
      ghost var k: nat := 0;
      var y: uint16 := 0;
      while y < yRes
        invariant Valid() && y <= yRes && k == y * xRes && k <= buffer.Length
        invariant sent == old(sent) + Scan(xRes, colours, emit, k)
        invariant forall j | 0 <= j < k :: !dirty[j]
        invariant forall j | k <= j < dirty.Length :: dirty[j] == emit[j]
      {
        Arith.RowMajorNextRow(xRes, yRes, y, k);
        k := FlushRow(y, colours, emit, old(sent), k);
        y := y + 1;
      }
      Arith.RowMajorEnd(xRes, yRes, y, k);
      PassDone(Flush, xRes, yRes, buffer[..], old(dirty[..]), old(sent), sent, k);
    }

    /** Row `y` of the dirty-only branch; `emit` is the bitmap as the pass found it. */
    method FlushRow(y: uint16, ghost colours: seq<RGB>, ghost emit: seq<bool>, ghost start: seq<Emission>, ghost rowStart: nat)
      returns (ghost rowEnd: nat)
      requires Valid() && y < yRes && rowStart == y * xRes && rowStart + xRes <= buffer.Length
      requires |colours| == buffer.Length && |emit| == dirty.Length
      requires forall j | rowStart <= j < rowStart + xRes :: colours[j] == buffer[j]
      requires sent == start + Scan(xRes, colours, emit, rowStart)
      requires forall j | 0 <= j < rowStart :: !dirty[j]
      requires forall j | rowStart <= j < dirty.Length :: dirty[j] == emit[j]
      modifies this`output, this`sent, dirty
      ensures Valid() && rowEnd == rowStart + xRes
      ensures sent == start + Scan(xRes, colours, emit, rowEnd)
      ensures forall j | 0 <= j < rowEnd :: !dirty[j]
      ensures forall j | rowEnd <= j < dirty.Length :: dirty[j] == emit[j]
    {
      rowEnd := rowStart;
      var x: uint16 := 0;
      while x < xRes
        invariant Valid() && x <= xRes && rowEnd == rowStart + x
        invariant sent == start + Scan(xRes, colours, emit, rowEnd)
        invariant forall j | 0 <= j < rowEnd :: !dirty[j]
        invariant forall j | rowEnd <= j < dirty.Length :: dirty[j] == emit[j]
      {
        FlushCell(x, y, colours, emit, start, rowEnd);
        x := x + 1;
        rowEnd := rowEnd + 1;
      }
    }

    /**
     * Position `(x, y)` of the dirty-only branch: its dirty bit is tested and
     * cleared, and it is sent with its stored colour when the bit was set.
     */
    method FlushCell(x: uint16, y: uint16, ghost colours: seq<RGB>, ghost emit: seq<bool>, ghost start: seq<Emission>, ghost k: nat)
      requires Valid() && x < xRes && y < yRes && k == y * xRes + x && k < buffer.Length
      requires |colours| == buffer.Length && |emit| == dirty.Length && emit[k] == dirty[k] && colours[k] == buffer[k]
      requires sent == start + Scan(xRes, colours, emit, k)
      modifies this`output, this`sent, dirty
      ensures Valid()
      ensures sent == start + Scan(xRes, colours, emit, k + 1)
      ensures !dirty[k] && forall j | 0 <= j < dirty.Length && j != k :: dirty[j] == old(dirty[j])
    {
      ghost var before := sent;
      var i := y * xRes + x;
      var wasDirty := TestAndClearDirtyBit(i);
      assert wasDirty == emit[k];
      if wasDirty {
        var colour := BufferPixel(x, y);
        WritePixel(x, y, colour);
        CellSent(xRes, colours, emit, start, before, sent, k, x, y, colour);
      } else {
        CellSkipped(xRes, colours, emit, k);
      }
    }

    /**
     * The body of the render worker's loop once it holds the semaphore: the
     * pass the blanking state selects, after which the state counts as acted on.
     */
    method RenderPass()
      requires Valid()
      modifies this`output, this`sent, this`previouslyOn, dirty
      ensures Valid() && previouslyOn == on
      ensures sent == old(sent) + PassFrame(PassFor(on, old(previouslyOn)), xRes, yRes, buffer[..], old(dirty[..]))
      ensures output == old(output) + EncodeAll(xRes, yRes, PassFrame(PassFor(on, old(previouslyOn)), xRes, yRes, buffer[..], old(dirty[..])))
      ensures dirty[..] == DirtyAfter(PassFor(on, old(previouslyOn)), old(dirty[..]))
      ensures old(ShowsStored()) ==> ShowsStored()
    {
      ghost var shown, previous, dirty0, sent0 := ShowsStored(), previouslyOn, dirty[..], sent;
      if on && !previouslyOn {
        ClearScreen();
      } else if !on && previouslyOn {
        RestoreScreen();
      } else {
        FlushDirty();
      }
      previouslyOn := on;
      if shown {
        PassKeepsClean(on, previous, xRes, yRes, buffer[..], dirty0, sent0);
      }
    }

    /**
     * One iteration of `terminal_display_thread_entry`: when the semaphore has
     * been given, it is taken and a pass runs; otherwise the worker would still
     * be waiting and nothing happens.
     */
    method WorkerStep() returns (ran: bool)
      requires Valid()
      modifies this`wake, this`output, this`sent, this`previouslyOn, dirty
      ensures Valid() && !wake && ran == old(wake)
      ensures !ran ==> output == old(output) && sent == old(sent) && previouslyOn == old(previouslyOn) &&
                       dirty[..] == old(dirty[..])
      ensures ran ==> (
        previouslyOn == on &&
        sent == old(sent) + PassFrame(PassFor(on, old(previouslyOn)), xRes, yRes, buffer[..], old(dirty[..])) &&
        output == old(output) + EncodeAll(xRes, yRes, PassFrame(PassFor(on, old(previouslyOn)), xRes, yRes, buffer[..], old(dirty[..]))) &&
        dirty[..] == DirtyAfter(PassFor(on, old(previouslyOn)), old(dirty[..])))
      ensures old(ShowsStored()) ==> ShowsStored()
    {
      ran := wake;
      if !ran {
        return;
      }
      wake := false;
      RenderPass();
    }
  }

  /**
   * Bring-up: a new instance whose terminal is ready, and the worker's first
   * iteration, which clears the whole display to black in row-major order.
   */
  method StartUp(width: uint16, height: uint16) returns (d: Display, status: int)
    ensures fresh(d) && fresh(d.buffer) && fresh(d.dirty) && d.Valid() && status == 0
    ensures d.output == EncodeAll(width, height, ClearFrame(width, height))
    ensures d.on && d.previouslyOn && !d.wake
    ensures d.buffer[..] == Repeat(width * height, Black) && d.dirty[..] == Repeat(width * height, false)
    ensures d.ShowsStored()
  {
    d := new Display(width, height);
    status := d.Init(true);
    var ran := d.WorkerStep();
  }
}
