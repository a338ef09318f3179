/**
 * What the render worker emits, as values: an emission is one pixel position
 * with the colour sent for it, a pass emits a row-major scan of the display,
 * and a write into the pixel surface is described cell by cell. The driver
 * class in terminal_display.dfy is specified with these functions.
 */
module Frames {

  import opened Rgb24
  import opened Encoding
  import Arith

  /** `uint16_t` */
  type uint16 = x: int | 0 <= x < 0x1_0000

  const Uint16Modulus := 0x1_0000

  /** Conversion to `uint16_t`: wraps modulo 2^16. */
  function Wrap16(v: int): uint16 {
    v % Uint16Modulus
  }

  /** `Wrap16` keeps values already in range and otherwise changes its argument by a multiple of 2^16. */
  lemma Wrap16Congruent(v: int)
    ensures 0 <= v < Uint16Modulus ==> Wrap16(v) == v
    ensures (v - Wrap16(v)) % Uint16Modulus == 0
  {
  }

  /** One call of `terminal_display_write_pixel`: a position and the colour sent for it. */
  datatype Emission = Emission(x: nat, y: nat, colour: RGB)

  /** Row-major order: an earlier row, or the same row further left. */
  predicate RowMajorBefore(a: Emission, b: Emission) {
    a.y < b.y || (a.y == b.y && a.x < b.x)
  }

  /** The pixel at index `i` of a `w`-wide row-major surface. */
  function At(w: nat, i: nat, colour: RGB): Emission
    requires 0 < w
  {
    Emission(i % w, i / w, colour)
  }

  /** `At` inverts row-major indexing. */
  lemma AtPosition(w: nat, i: nat, colour: RGB)
    requires 0 < w
    ensures At(w, i, colour).x < w && At(w, i, colour).y * w + At(w, i, colour).x == i
  {
  }

  /** The bytes sent for a sequence of emissions, one after the other. */
  function EncodeAll(xRes: nat, yRes: nat, es: seq<Emission>): seq<uint8> {
    EncodeFirst(xRes, yRes, es, |es|)
  }

  /** The bytes sent for the first `n` emissions of `es`. */
  function EncodeFirst(xRes: nat, yRes: nat, es: seq<Emission>, n: nat): seq<uint8>
    requires n <= |es|
  {
    if n == 0 then [] else EncodeFirst(xRes, yRes, es, n - 1) + EncodeEmission(xRes, yRes, es[n - 1])
  }

  function EncodeEmission(xRes: nat, yRes: nat, e: Emission): seq<uint8> {
    EncodePixel(xRes, yRes, e.x, e.y, e.colour)
  }

  lemma {:induction false} EncodeFirstAppend(xRes: nat, yRes: nat, es: seq<Emission>, e: Emission, n: nat)
    requires n <= |es|
    ensures EncodeFirst(xRes, yRes, es + [e], n) == EncodeFirst(xRes, yRes, es, n)
  {
    if n > 0 {
      EncodeFirstAppend(xRes, yRes, es, e, n - 1);
      assert (es + [e])[n - 1] == es[n - 1];
    }
  }

  /**
   * `bytes` is what is sent for `es`: equivalent to `bytes == EncodeAll(xRes,
   * yRes, es)`, see `TranscriptIsEncoding`. It is stated for every `n` equal to
   * the length so that a context which does not mention the encoding of `es`
   * is not made to expand it.
   */
  ghost predicate Transcript(xRes: nat, yRes: nat, bytes: seq<uint8>, es: seq<Emission>) {
    forall n | n == |es| :: bytes == EncodeFirst(xRes, yRes, es, n)
  }

  lemma TranscriptIsEncoding(xRes: nat, yRes: nat, bytes: seq<uint8>, es: seq<Emission>)
    ensures Transcript(xRes, yRes, bytes, es) <==> bytes == EncodeAll(xRes, yRes, es)
  {
  }

  /** Sending one more emission appends its bytes to those already sent. */
  lemma EncodeAllAppend(xRes: nat, yRes: nat, es: seq<Emission>, e: Emission)
    ensures EncodeAll(xRes, yRes, es + [e]) == EncodeAll(xRes, yRes, es) + EncodePixel(xRes, yRes, e.x, e.y, e.colour)
  {
    EncodeFirstAppend(xRes, yRes, es, e, |es|);
    assert (es + [e])[|es|] == e;
  }

  /**
   * The emissions of a pass over cells `0 .. n-1` of a `w`-wide surface, in
   * index order: cell `i` is emitted, with colour `colours[i]`, exactly when `emit[i]`.
   */
  function Scan(w: nat, colours: seq<RGB>, emit: seq<bool>, n: nat): seq<Emission>
    requires n <= |colours| && |emit| == |colours| && (0 < w || n == 0)
  {
    if n == 0 then []
    else Scan(w, colours, emit, n - 1) + (if emit[n - 1] then [At(w, n - 1, colours[n - 1])] else [])
  }

  /** Encoding distributes over concatenation: the bytes of `a + b` are those of `a`, then those of `b`. */
  lemma {:induction false} EncodeAllConcat(xRes: nat, yRes: nat, a: seq<Emission>, b: seq<Emission>)
    ensures EncodeAll(xRes, yRes, a + b) == EncodeAll(xRes, yRes, a) + EncodeAll(xRes, yRes, b)
  {
    if b == [] {
      assert a + b == a;
      assert EncodeAll(xRes, yRes, b) == [];
    } else {
      var b', e := b[..|b| - 1], b[|b| - 1];
      assert b == b' + [e];
      assert a + b == (a + b') + [e];
      EncodeAllConcat(xRes, yRes, a, b');
      EncodeAllAppend(xRes, yRes, a + b', e);
      EncodeAllAppend(xRes, yRes, b', e);
      AppendAssociative(EncodeAll(xRes, yRes, a), EncodeAll(xRes, yRes, b'), EncodePixel(xRes, yRes, e.x, e.y, e.colour));
    }
  }

  /** A scan over one more cell adds that cell's emission, when it is selected. */
  lemma ScanNext(w: nat, colours: seq<RGB>, emit: seq<bool>, n: nat)
    requires n < |colours| && |emit| == |colours| && 0 < w
    ensures Scan(w, colours, emit, n + 1) ==
            Scan(w, colours, emit, n) + (if emit[n] then [At(w, n, colours[n])] else [])
  {
  }

  /**
   * The three writes of one in-range pixel, cursor position, background and
   * reset, are its encoding, and they extend the transcript by that pixel.
   */
  lemma PixelSent(xRes: nat, yRes: nat, x: nat, y: nat, colour: RGB, index: nat,
                  before: seq<uint8>, after: seq<uint8>, es: seq<Emission>)
    requires x < xRes && y < yRes && index == PaletteIndex(colour)
    requires Transcript(xRes, yRes, before, es)
    requires after == before + CursorPosition(y + 1, x * 2 + 1) + Background(index) + Reset
    ensures after == before + EncodePixel(xRes, yRes, x, y, colour)
    ensures Transcript(xRes, yRes, after, es + [Emission(x, y, colour)])
  {
    var cup, sgr := CursorPosition(y + 1, x * 2 + 1), Background(index);
    AppendAssociative(before, cup, sgr);
    AppendAssociative(before, cup + sgr, Reset);
    TranscriptIsEncoding(xRes, yRes, before, es);
    EncodeAllAppend(xRes, yRes, es, Emission(x, y, colour));
    TranscriptIsEncoding(xRes, yRes, after, es + [Emission(x, y, colour)]);
  }

  /**
   * One selected cell of a pass: if what was sent is `start` followed by the
   * scan up to cell `n`, sending that cell, at position `(x, y)` with its
   * colour, extends it to the scan up to cell `n + 1`.
   */
  lemma CellSent(w: nat, colours: seq<RGB>, emit: seq<bool>, start: seq<Emission>,
                 before: seq<Emission>, after: seq<Emission>, n: nat, x: nat, y: nat, colour: RGB)
    requires n < |colours| && |emit| == |colours| && x < w && n == y * w + x
    requires emit[n] && colours[n] == colour
    requires before == start + Scan(w, colours, emit, n)
    requires after == before + [Emission(x, y, colour)]
    ensures after == start + Scan(w, colours, emit, n + 1)
  {
    ScanNext(w, colours, emit, n);
    Arith.RowMajorCoordinates(w, x, y);
    assert At(w, n, colours[n]) == Emission(x, y, colour);
    AppendAssociative(start, Scan(w, colours, emit, n), [Emission(x, y, colour)]);
  }

  /** One cell of a pass that is not selected: nothing is sent, and the scan does not grow. */
  lemma CellSkipped(w: nat, colours: seq<RGB>, emit: seq<bool>, n: nat)
    requires n < |colours| && |emit| == |colours| && 0 < w
    requires !emit[n]
    ensures Scan(w, colours, emit, n + 1) == Scan(w, colours, emit, n)
  {
    ScanNext(w, colours, emit, n);
  }

  function Repeat<T>(n: nat, v: T): (s: seq<T>)
    ensures |s| == n && forall i | 0 <= i < n :: s[i] == v
  {
    seq(n, _ => v)
  }

  /** Full clear: every cell of the `w` by `h` display, black. */
  function ClearFrame(w: nat, h: nat): seq<Emission> {
    var n := w * h;
    assert 0 < w || n == 0;
    Scan(w, Repeat(n, Black), Repeat(n, true), n)
  }

  /** Full restore: every cell with its stored colour. */
  function RestoreFrame(w: nat, buffer: seq<RGB>): seq<Emission>
    requires 0 < w || buffer == []
  {
    Scan(w, buffer, Repeat(|buffer|, true), |buffer|)
  }

  /** Dirty-only flush: the cells whose dirty bit is set, with their stored colour. */
  function DirtyFrame(w: nat, buffer: seq<RGB>, dirty: seq<bool>): seq<Emission>
    requires |dirty| == |buffer| && (0 < w || buffer == [])
  {
    Scan(w, buffer, dirty, |buffer|)
  }

  /**
   * Every emission of a scan is a selected cell inside the scanned range, at the
   * position that cell has, with that cell's colour.
   */
  lemma {:induction false} ScanSound(w: nat, colours: seq<RGB>, emit: seq<bool>, n: nat)
    requires n <= |colours| && |emit| == |colours| && (0 < w || n == 0)
    ensures forall e | e in Scan(w, colours, emit, n) ::
      e.x < w && e.y * w + e.x < n && emit[e.y * w + e.x] && e.colour == colours[e.y * w + e.x]
  {
    if n > 0 {
      ScanSound(w, colours, emit, n - 1);
      AtPosition(w, n - 1, colours[n - 1]);
    }
  }

  /** Every selected cell of the scanned range is emitted. */
  lemma {:induction false} ScanComplete(w: nat, colours: seq<RGB>, emit: seq<bool>, n: nat, i: nat)
    requires n <= |colours| && |emit| == |colours| && 0 < w
    requires i < n && emit[i]
    ensures At(w, i, colours[i]) in Scan(w, colours, emit, n)
  {
    if i < n - 1 {
      ScanComplete(w, colours, emit, n - 1, i);
    }
  }

  /** A scan is strictly increasing in row-major order, so no cell is emitted twice. */
  lemma {:induction false} ScanOrdered(w: nat, colours: seq<RGB>, emit: seq<bool>, n: nat)
    requires n <= |colours| && |emit| == |colours| && (0 < w || n == 0)
    ensures forall a, b | 0 <= a < b < |Scan(w, colours, emit, n)| ::
      RowMajorBefore(Scan(w, colours, emit, n)[a], Scan(w, colours, emit, n)[b])
  {
    if n > 0 {
      var s := Scan(w, colours, emit, n - 1);
      ScanOrdered(w, colours, emit, n - 1);
      if emit[n - 1] {
        var last := At(w, n - 1, colours[n - 1]);
        ScanSound(w, colours, emit, n - 1);
        forall a | 0 <= a < |s| ensures RowMajorBefore(s[a], last) {
          var e := s[a];
          assert e in s;
          var i := e.y * w + e.x;
          Arith.RowMajorCoordinates(w, e.x, e.y);
          Arith.RowMajorOrder(w, i, n - 1);
        }
      }
    }
  }

  /** Emission `e` paints cell `k` of a `w`-wide surface. */
  predicate Paints(w: nat, e: Emission, k: nat) {
    e.x < w && e.y * w + e.x == k
  }

  /** The colour the terminal last received for cell `k`, if the cell was ever sent. */
  function LastSent(w: nat, sent: seq<Emission>, k: nat): Option<RGB> {
    if sent == [] then None
    else if Paints(w, sent[|sent| - 1], k) then Some(sent[|sent| - 1].colour)
    else LastSent(w, sent[..|sent| - 1], k)
  }

  lemma LastSentAppend(w: nat, sent: seq<Emission>, e: Emission, k: nat)
    ensures LastSent(w, sent + [e], k) == if Paints(w, e, k) then Some(e.colour) else LastSent(w, sent, k)
  {
    assert (sent + [e])[..|sent|] == sent;
  }

  /**
   * After a scan, a selected cell of the scanned range was last sent with the
   * scan's colour for it; every other cell was last sent as before the scan.
   */
  lemma {:induction false} LastSentScan(w: nat, colours: seq<RGB>, emit: seq<bool>, start: seq<Emission>, n: nat, k: nat)
    requires n <= |colours| && |emit| == |colours| && 0 < w
    ensures LastSent(w, start + Scan(w, colours, emit, n), k) ==
            if k < n && emit[k] then Some(colours[k]) else LastSent(w, start, k)
  {
    if n > 0 {
      LastSentScan(w, colours, emit, start, n - 1, k);
      var s := Scan(w, colours, emit, n - 1);
      if emit[n - 1] {
        var e := At(w, n - 1, colours[n - 1]);
        AtPosition(w, n - 1, colours[n - 1]);
        AppendAssociative(start, s, [e]);
        LastSentAppend(w, start + s, e, k);
      } else {
        assert Scan(w, colours, emit, n) == s;
      }
    } else {
      assert start + Scan(w, colours, emit, n) == start;
    }
  }

  /**
   * The surface invariant of the dirty bitmap: every cell whose dirty bit is
   * clear and that has been sent was last sent with its stored colour, so the
   * terminal shows it as stored.
   */
  ghost predicate Clean(w: nat, buffer: seq<RGB>, dirty: seq<bool>, sent: seq<Emission>)
    requires |dirty| == |buffer|
  {
    forall k | 0 <= k < |buffer| && !dirty[k] && LastSent(w, sent, k).Some? :: LastSent(w, sent, k).value == buffer[k]
  }

  /**
   * The block pixel that `terminal_display_write` would store into display cell
   * `(dx, dy)`, as an index into the source pixels. Block pixel `(sx, sy)` is
   * stored at `((x + sx) mod 2^16, (y + sy) mod 2^16)`; since `sx` and `sy` are
   * below 2^16 this has the unique inverse `sx = (dx - x) mod 2^16`,
   * `sy = (dy - y) mod 2^16`. The source is read at `sy * width + sx`; the
   * descriptor's pitch plays no part.
   */
  function BlockSource(x: uint16, y: uint16, width: uint16, height: uint16, dx: nat, dy: nat): Option<nat> {
    var sx := Wrap16(dx - x);
    var sy := Wrap16(dy - y);
    if sx < width && sy < height then Some(sy * width + sx) else None
  }

  /** `BlockSource` for cell `k` of an `xRes`-wide surface. */
  function CellSource(xRes: nat, x: uint16, y: uint16, width: uint16, height: uint16, k: nat): Option<nat>
    requires 0 < xRes
  {
    BlockSource(x, y, width, height, k % xRes, k / xRes)
  }

  /**
   * The surface after the block pixels with source index below `n` have been
   * copied in: a cell the block covers takes its source pixel, every other
   * cell keeps its value.
   */
  function Written(buffer: seq<RGB>, xRes: nat, x: uint16, y: uint16, width: uint16, height: uint16,
                   source: seq<RGB>, n: nat): (r: seq<RGB>)
    requires 0 < xRes || buffer == []
    requires n <= |source|
    ensures |r| == |buffer|
  {
    seq(|buffer|, k requires 0 <= k < |buffer| =>
      match CellSource(xRes, x, y, width, height, k)
      case Some(s) => if s < n then source[s] else buffer[k]
      case None => buffer[k])
  }

  /**
   * The dirty bitmap after the same copy: a bit is set when it was already set,
   * or when the cell received a source pixel different from its stored value.
   */
  function MarkedDirty(dirty: seq<bool>, buffer: seq<RGB>, xRes: nat, x: uint16, y: uint16,
                       width: uint16, height: uint16, source: seq<RGB>, n: nat): (r: seq<bool>)
    requires |dirty| == |buffer| && (0 < xRes || buffer == [])
    requires n <= |source|
    ensures |r| == |dirty|
  {
    seq(|buffer|, k requires 0 <= k < |buffer| =>
      dirty[k] ||
      match CellSource(xRes, x, y, width, height, k)
      case Some(s) => s < n && source[s] != buffer[k]
      case None => false)
  }

  /**
   * The block pixel `(sx, sy)` lands on display cell `((x + sx) mod 2^16,
   * (y + sy) mod 2^16)`, and that cell (when it is on the display) is the only
   * one the pixel is copied to.
   */
  lemma BlockSourceOfDestination(xRes: nat, yRes: nat, x: uint16, y: uint16, width: uint16, height: uint16,
                                 sx: nat, sy: nat, k: nat)
    requires sx < width && sy < height
    requires 0 < xRes < Uint16Modulus && yRes < Uint16Modulus && k < xRes * yRes
    ensures CellSource(xRes, x, y, width, height, k) == Some(sy * width + sx) <==>
            k % xRes == Wrap16(x + sx) && k / xRes == Wrap16(y + sy)
  {
    var dx, dy := k % xRes, k / xRes;
    Arith.RowMajorRow(xRes, yRes, k);
    assert dx < xRes && dy < yRes;
    BlockSourceInverse(x, y, width, height, sx, sy, dx, dy);
    assert CellSource(xRes, x, y, width, height, k) == BlockSource(x, y, width, height, dx, dy);
  }

  /** `BlockSource` inverts the placement of a block pixel on the 16-bit plane. */
  lemma BlockSourceInverse(x: uint16, y: uint16, width: uint16, height: uint16, sx: nat, sy: nat, dx: nat, dy: nat)
    requires sx < width && sy < height && dx < Uint16Modulus && dy < Uint16Modulus
    ensures BlockSource(x, y, width, height, dx, dy) == Some(sy * width + sx) <==>
            dx == Wrap16(x + sx) && dy == Wrap16(y + sy)
  {
    Wrap16Inverse(dx, x, sx);
    Wrap16Inverse(dy, y, sy);
    SourceIndexUnique(width, sx, sy, Wrap16(dx - x), Wrap16(dy - y));
  }

  /** Inside the 16-bit range, adding `x` modulo 2^16 is undone by subtracting it. */
  lemma Wrap16Inverse(d: nat, x: uint16, s: nat)
    requires d < Uint16Modulus && s < Uint16Modulus
    ensures d == Wrap16(x + s) <==> Wrap16(d - x) == s
  {
  }

  lemma SourceIndexUnique(width: nat, sx: nat, sy: nat, sx': nat, sy': nat)
    requires sx < width
    ensures sx' < width && sy' * width + sx' == sy * width + sx ==> sx' == sx && sy' == sy
  {
    Arith.DivModUnique(sy * width + sx, width, sy, sx);
    if sx' < width {
      Arith.DivModUnique(sy' * width + sx', width, sy', sx');
    }
  }

  /**
   * Block pixel number `n` (at `(sx, sy)`) lands outside the display: copying it
   * changes neither the surface nor the dirty bitmap.
   */
  lemma WriteStepSkips(buffer: seq<RGB>, dirty: seq<bool>, xRes: nat, yRes: nat, x: uint16, y: uint16,
                       width: uint16, height: uint16, source: seq<RGB>, n: nat, sx: nat, sy: nat)
    requires |buffer| == xRes * yRes && |dirty| == |buffer| && xRes < Uint16Modulus && yRes < Uint16Modulus
    requires sx < width && sy < height && n == sy * width + sx && n < |source|
    requires Wrap16(x + sx) >= xRes || Wrap16(y + sy) >= yRes
    ensures Written(buffer, xRes, x, y, width, height, source, n + 1) ==
            Written(buffer, xRes, x, y, width, height, source, n)
    ensures MarkedDirty(dirty, buffer, xRes, x, y, width, height, source, n + 1) ==
            MarkedDirty(dirty, buffer, xRes, x, y, width, height, source, n)
  {
    forall k | 0 <= k < |buffer| ensures CellSource(xRes, x, y, width, height, k) != Some(n) {
      BlockSourceOfDestination(xRes, yRes, x, y, width, height, sx, sy, k);
      Arith.RowMajorRow(xRes, yRes, k);
    }
  }

  /** Block pixel number `n` lands on display cell `di` and on no other cell. */
  lemma StepDestination(xRes: nat, yRes: nat, x: uint16, y: uint16, width: uint16, height: uint16,
                        n: nat, sx: nat, sy: nat, dx: nat, dy: nat, di: nat)
    requires xRes < Uint16Modulus && yRes < Uint16Modulus
    requires sx < width && sy < height && n == sy * width + sx
    requires dx == Wrap16(x + sx) && dy == Wrap16(y + sy) && dx < xRes && dy < yRes && di == dy * xRes + dx
    ensures di < xRes * yRes && CellSource(xRes, x, y, width, height, di) == Some(n)
    ensures forall k | 0 <= k < xRes * yRes && k != di :: CellSource(xRes, x, y, width, height, k) != Some(n)
  {
    Arith.RowMajorBound(xRes, yRes, dx, dy);
    Arith.RowMajorCoordinates(xRes, dx, dy);
    BlockSourceOfDestination(xRes, yRes, x, y, width, height, sx, sy, di);
    forall k | 0 <= k < xRes * yRes && k != di ensures CellSource(xRes, x, y, width, height, k) != Some(n) {
      BlockSourceOfDestination(xRes, yRes, x, y, width, height, sx, sy, k);
    }
  }

  /**
   * Block pixel number `n` lands on display cell `di`: copying it sets exactly
   * that cell, which until then still held its original value.
   */
  lemma WrittenStepCopies(buffer: seq<RGB>, xRes: nat, yRes: nat, x: uint16, y: uint16,
                          width: uint16, height: uint16, source: seq<RGB>, n: nat, di: nat)
    requires |buffer| == xRes * yRes && n < |source| && di < |buffer|
    requires CellSource(xRes, x, y, width, height, di) == Some(n)
    requires forall k | 0 <= k < xRes * yRes && k != di :: CellSource(xRes, x, y, width, height, k) != Some(n)
    ensures Written(buffer, xRes, x, y, width, height, source, n)[di] == buffer[di]
    ensures Written(buffer, xRes, x, y, width, height, source, n + 1) ==
            Written(buffer, xRes, x, y, width, height, source, n)[di := source[n]]
  {
  }

  /** The same copy marks cell `di` dirty when its value changes, and no other bit. */
  lemma MarkedStepCopies(dirty: seq<bool>, buffer: seq<RGB>, xRes: nat, yRes: nat, x: uint16, y: uint16,
                         width: uint16, height: uint16, source: seq<RGB>, n: nat, di: nat)
    requires |buffer| == xRes * yRes && |dirty| == |buffer| && n < |source| && di < |buffer|
    requires CellSource(xRes, x, y, width, height, di) == Some(n)
    requires forall k | 0 <= k < xRes * yRes && k != di :: CellSource(xRes, x, y, width, height, k) != Some(n)
    ensures MarkedDirty(dirty, buffer, xRes, x, y, width, height, source, n)[di] == dirty[di]
    ensures MarkedDirty(dirty, buffer, xRes, x, y, width, height, source, n + 1) ==
            MarkedDirty(dirty, buffer, xRes, x, y, width, height, source, n)
              [di := dirty[di] || source[n] != buffer[di]]
  {
  }

  /**
   * The whole copy, seen from the block: block pixel `(sx, sy)` whose
   * destination `((x + sx) mod 2^16, (y + sy) mod 2^16)` is on the display ends
   * up stored there, and that cell is dirty exactly when it already was or
   * its value changed.
   */
  lemma WrittenBlockPixel(buffer: seq<RGB>, dirty: seq<bool>, xRes: nat, yRes: nat, x: uint16, y: uint16,
                          width: uint16, height: uint16, source: seq<RGB>, total: nat, sx: nat, sy: nat, n: nat, k: nat)
    requires |buffer| == xRes * yRes && |dirty| == |buffer| && 0 < xRes < Uint16Modulus && yRes < Uint16Modulus
    requires total == width * height && total <= |source| && sx < width && sy < height && n == sy * width + sx
    requires Wrap16(x + sx) < xRes && Wrap16(y + sy) < yRes && k == Wrap16(y + sy) * xRes + Wrap16(x + sx)
    ensures k < |buffer| && n < total
    ensures Written(buffer, xRes, x, y, width, height, source, total)[k] == source[n]
    ensures MarkedDirty(dirty, buffer, xRes, x, y, width, height, source, total)[k] == (dirty[k] || source[n] != buffer[k])
  {
    var dx, dy := Wrap16(x + sx), Wrap16(y + sy);
    Arith.RowMajorBound(xRes, yRes, dx, dy);
    Arith.RowMajorBound(width, height, sx, sy);
    Arith.RowMajorCoordinates(xRes, dx, dy);
    BlockSourceOfDestination(xRes, yRes, x, y, width, height, sx, sy, k);
  }

  /**
   * A write keeps the surface invariant: a cell that is still clean after the
   * copy was clean before it and kept its value.
   */
  lemma WriteKeepsClean(buffer: seq<RGB>, dirty: seq<bool>, xRes: nat, x: uint16, y: uint16,
                        width: uint16, height: uint16, source: seq<RGB>, n: nat, sent: seq<Emission>)
    requires |dirty| == |buffer| && (0 < xRes || buffer == []) && n <= |source|
    requires Clean(xRes, buffer, dirty, sent)
    ensures Clean(xRes, Written(buffer, xRes, x, y, width, height, source, n),
                  MarkedDirty(dirty, buffer, xRes, x, y, width, height, source, n), sent)
  {
    var b := Written(buffer, xRes, x, y, width, height, source, n);
    var d := MarkedDirty(dirty, buffer, xRes, x, y, width, height, source, n);
    forall k | 0 <= k < |b| && !d[k] ensures !dirty[k] && b[k] == buffer[k] {
    }
  }

  /** Which of the three passes the render worker runs, from the blanking state. */
  datatype Pass = Clear | Restore | Flush

  function PassFor(on: bool, previouslyOn: bool): (p: Pass)
    ensures p == Clear <==> on && !previouslyOn
    ensures p == Restore <==> !on && previouslyOn
    ensures p == Flush <==> on == previouslyOn
  {
    if on && !previouslyOn then Clear
    else if !on && previouslyOn then Restore
    else Flush
  }

  /** The emissions of pass `p` over a `w` by `h` surface and its dirty bitmap. */
  function PassFrame(p: Pass, w: nat, h: nat, buffer: seq<RGB>, dirty: seq<bool>): seq<Emission>
    requires |buffer| == w * h && |dirty| == |buffer|
  {
    match p
    case Clear => ClearFrame(w, h)
    case Restore => RestoreFrame(w, buffer)
    case Flush => DirtyFrame(w, buffer, dirty)
  }

  /** The dirty bitmap after pass `p`: the clear pass does not touch it, the other two empty it. */
  function DirtyAfter(p: Pass, dirty: seq<bool>): (r: seq<bool>)
    ensures |r| == |dirty|
  {
    if p == Clear then dirty else Repeat(|dirty|, false)
  }

  /**
   * What a pass emits, cell by cell: pass `p` emits cell `(x, y)` of the display
   * when every pass but the flush would, or its dirty bit is set; the colour is
   * black for the clear pass and the stored colour otherwise. Nothing else is
   * emitted, and the emissions come strictly in row-major order.
   */
  predicate Selected(p: Pass, dirty: seq<bool>, i: nat)
    requires i < |dirty|
  {
    p != Flush || dirty[i]
  }

  function Shown(p: Pass, buffer: seq<RGB>, i: nat): RGB
    requires i < |buffer|
  {
    if p == Clear then Black else buffer[i]
  }

  /** The colours and the selection a pass scans. */
  function PassColours(p: Pass, buffer: seq<RGB>): (c: seq<RGB>)
    ensures |c| == |buffer|
  {
    if p == Clear then Repeat(|buffer|, Black) else buffer
  }

  function PassSelection(p: Pass, dirty: seq<bool>): (s: seq<bool>)
    ensures |s| == |dirty|
  {
    if p == Flush then dirty else Repeat(|dirty|, true)
  }

  lemma PassFrameIsScan(p: Pass, w: nat, h: nat, buffer: seq<RGB>, dirty: seq<bool>)
    requires |buffer| == w * h && |dirty| == |buffer|
    ensures 0 < w || buffer == []
    ensures PassFrame(p, w, h, buffer, dirty) == Scan(w, PassColours(p, buffer), PassSelection(p, dirty), |buffer|)
  {
  }

  /**
   * Once a scan has covered every cell of the surface, what it sent is the whole
   * pass, and the bytes it sent are those of the pass.
   */
  lemma PassDone(p: Pass, w: nat, h: nat, buffer: seq<RGB>, dirty: seq<bool>, start: seq<Emission>, sent: seq<Emission>, n: nat)
    requires |buffer| == w * h && |dirty| == |buffer| && n == |buffer|
    requires sent == start + Scan(w, PassColours(p, buffer), PassSelection(p, dirty), n)
    ensures sent == start + PassFrame(p, w, h, buffer, dirty)
    ensures EncodeAll(w, h, sent) == EncodeAll(w, h, start) + EncodeAll(w, h, PassFrame(p, w, h, buffer, dirty))
  {
    PassFrameIsScan(p, w, h, buffer, dirty);
    EncodeAllConcat(w, h, start, PassFrame(p, w, h, buffer, dirty));
  }

  /** Every emission of a pass is a selected cell of the display, with the colour that pass shows for it. */
  lemma PassFrameSound(p: Pass, w: nat, h: nat, buffer: seq<RGB>, dirty: seq<bool>)
    requires |buffer| == w * h && |dirty| == |buffer|
    ensures forall e | e in PassFrame(p, w, h, buffer, dirty) ::
      e.x < w && e.y < h &&
      var i := e.y * w + e.x;
      i < |buffer| && Selected(p, dirty, i) && e.colour == Shown(p, buffer, i)
  {
    PassFrameIsScan(p, w, h, buffer, dirty);
    var colours, emit := PassColours(p, buffer), PassSelection(p, dirty);
    ScanSound(w, colours, emit, |buffer|);
    forall e | e in Scan(w, colours, emit, |buffer|) ensures e.y < h {
      Arith.RowMajorRow(w, h, e.y * w + e.x);
      Arith.RowMajorCoordinates(w, e.x, e.y);
    }
  }

  /** Every selected cell of the display is emitted by the pass, at its position, with the colour the pass shows. */
  lemma PassFrameComplete(p: Pass, w: nat, h: nat, buffer: seq<RGB>, dirty: seq<bool>, i: nat)
    requires |buffer| == w * h && |dirty| == |buffer|
    requires i < |buffer| && Selected(p, dirty, i)
    ensures 0 < w && At(w, i, Shown(p, buffer, i)) in PassFrame(p, w, h, buffer, dirty)
  {
    PassFrameIsScan(p, w, h, buffer, dirty);
    ScanComplete(w, PassColours(p, buffer), PassSelection(p, dirty), |buffer|, i);
  }

  /** A pass emits in strictly increasing row-major order, so no cell twice. */
  lemma PassFrameOrdered(p: Pass, w: nat, h: nat, buffer: seq<RGB>, dirty: seq<bool>)
    requires |buffer| == w * h && |dirty| == |buffer|
    ensures forall a, b | 0 <= a < b < |PassFrame(p, w, h, buffer, dirty)| ::
      RowMajorBefore(PassFrame(p, w, h, buffer, dirty)[a], PassFrame(p, w, h, buffer, dirty)[b])
  {
    PassFrameIsScan(p, w, h, buffer, dirty);
    ScanOrdered(w, PassColours(p, buffer), PassSelection(p, dirty), |buffer|);
  }

  /**
   * The restore pass leaves every cell sent with its stored colour and every
   * dirty bit clear, so it establishes the surface invariant whatever came before.
   */
  lemma RestoreCleans(w: nat, h: nat, buffer: seq<RGB>, dirty: seq<bool>, sent: seq<Emission>)
    requires |buffer| == w * h && |dirty| == |buffer|
    ensures forall k | 0 <= k < |buffer| :: LastSent(w, sent + PassFrame(Restore, w, h, buffer, dirty), k) == Some(buffer[k])
    ensures Clean(w, buffer, DirtyAfter(Restore, dirty), sent + PassFrame(Restore, w, h, buffer, dirty))
  {
    PassFrameIsScan(Restore, w, h, buffer, dirty);
    forall k | 0 <= k < |buffer|
      ensures LastSent(w, sent + PassFrame(Restore, w, h, buffer, dirty), k) == Some(buffer[k])
    {
      LastSentScan(w, buffer, Repeat(|buffer|, true), sent, |buffer|, k);
    }
  }

  /**
   * The flush sends every dirty cell with its stored colour and clears its bit,
   * and sends nothing else, so it keeps the surface invariant.
   */
  lemma FlushKeepsClean(w: nat, h: nat, buffer: seq<RGB>, dirty: seq<bool>, sent: seq<Emission>)
    requires |buffer| == w * h && |dirty| == |buffer|
    requires Clean(w, buffer, dirty, sent)
    ensures forall k | 0 <= k < |buffer| && dirty[k] :: LastSent(w, sent + PassFrame(Flush, w, h, buffer, dirty), k) == Some(buffer[k])
    ensures Clean(w, buffer, DirtyAfter(Flush, dirty), sent + PassFrame(Flush, w, h, buffer, dirty))
  {
    PassFrameIsScan(Flush, w, h, buffer, dirty);
    forall k | 0 <= k < |buffer|
      ensures LastSent(w, sent + PassFrame(Flush, w, h, buffer, dirty), k) ==
              if dirty[k] then Some(buffer[k]) else LastSent(w, sent, k)
    {
      LastSentScan(w, buffer, dirty, sent, |buffer|, k);
    }
  }

  /**
   * A render pass keeps the surface invariant whenever the display is not
   * blanked afterwards. It is only required beforehand when the display was
   * not blanked, because the clear pass sends black without touching the bits.
   */
  lemma PassKeepsClean(on: bool, previouslyOn: bool, w: nat, h: nat, buffer: seq<RGB>, dirty: seq<bool>, sent: seq<Emission>)
    requires |buffer| == w * h && |dirty| == |buffer|
    requires !previouslyOn ==> Clean(w, buffer, dirty, sent)
    ensures !on ==> Clean(w, buffer, DirtyAfter(PassFor(on, previouslyOn), dirty),
                          sent + PassFrame(PassFor(on, previouslyOn), w, h, buffer, dirty))
  {
    if !on {
      if previouslyOn {
        RestoreCleans(w, h, buffer, dirty, sent);
      } else {
        FlushKeepsClean(w, h, buffer, dirty, sent);
      }
    }
  }
}
