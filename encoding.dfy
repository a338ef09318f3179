/**
 * The bytes `terminal_display_write_pixel` sends for one pixel: a Cursor
 * Position control sequence (CUP, section 8.3.21 of ECMA-48), a Select Graphic
 * Rendition sequence choosing the xterm 256-colour background (SGR, section
 * 8.3.117 of ECMA-48, parameters 48;5;n) followed by two spaces, and an SGR
 * reset. A decoder for this grammar is given alongside, so that what an
 * emission says can be read back from its bytes.
 */
module Encoding {

  import opened Rgb24

  datatype Option<T> = None | Some(value: T)

  const Esc: uint8 := 0x1B
  const LeftBracket: uint8 := 0x5B  // '['
  const Semicolon: uint8 := 0x3B    // ';'
  const FinalCup: uint8 := 0x48     // 'H'
  const FinalSgr: uint8 := 0x6D     // 'm'
  const Space: uint8 := 0x20
  const DigitZero: uint8 := 0x30    // '0'

  /** Control Sequence Introducer, ESC [ */
  const Csi: seq<uint8> := [Esc, LeftBracket]

  /** "48;5;": SGR parameters selecting an indexed background colour. */
  const BackgroundParams: seq<uint8> := [0x34, 0x38, Semicolon, 0x35, Semicolon]

  /** "ESC [ 0 m": SGR with the single parameter 0, resetting all attributes. */
  const Reset: seq<uint8> := Csi + [DigitZero, FinalSgr]

  predicate IsDigit(c: uint8) {
    DigitZero <= c <= DigitZero + 9
  }

  predicate AllDigits(s: seq<uint8>) {
    forall k | 0 <= k < |s| :: IsDigit(s[k])
  }

  /** `%d` of a non-negative number: its decimal digits, most significant first, without leading zeros. */
  function Decimal(n: nat): (s: seq<uint8>)
    ensures 1 <= |s| && AllDigits(s)
    ensures s[0] == DigitZero ==> n == 0
  {
    if n < 10 then [DigitZero + n] else Decimal(n / 10) + [DigitZero + n % 10]
  }

  /** The number a run of decimal digits denotes. */
  function DigitsValue(s: seq<uint8>): nat
    requires AllDigits(s)
  {
    if s == [] then 0 else DigitsValue(s[..|s| - 1]) * 10 + (s[|s| - 1] - DigitZero)
  }

  lemma {:induction false} DecimalValue(n: nat)
    ensures DigitsValue(Decimal(n)) == n
  {
    var s := Decimal(n);
    if n >= 10 {
      var q := n / 10;
      DecimalValue(q);
      assert s[..|s| - 1] == Decimal(q);
    }
  }

  /** Length of the run of digits at the start of `s`. */
  function DigitRun(s: seq<uint8>): (n: nat)
    ensures n <= |s|
  {
    if s != [] && IsDigit(s[0]) then 1 + DigitRun(s[1..]) else 0
  }

  lemma {:induction false} DigitRunAppend(d: seq<uint8>, rest: seq<uint8>)
    requires AllDigits(d)
    ensures DigitRun(d + rest) == |d| + DigitRun(rest)
  {
    if d == [] {
      assert d + rest == rest;
    } else {
      assert (d + rest)[0] == d[0];
      assert (d + rest)[1..] == d[1..] + rest;
      DigitRunAppend(d[1..], rest);
    }
  }

  /** A non-empty maximal run of digits read as a number, and what follows it. */
  function ParseNumber(s: seq<uint8>): (r: Option<(nat, seq<uint8>)>)
    ensures r.Some? ==> |r.value.1| < |s|
  {
    var n := DigitRun(s);
    if n == 0 then None
    else
      assert AllDigits(s[..n]) by { DigitRunIsDigits(s); }
      Some((DigitsValue(s[..n]), s[n..]))
  }

  lemma {:induction false} DigitRunIsDigits(s: seq<uint8>)
    ensures AllDigits(s[..DigitRun(s)])
  {
    if s != [] && IsDigit(s[0]) {
      DigitRunIsDigits(s[1..]);
      assert s[..DigitRun(s)] == [s[0]] + s[1..][..DigitRun(s[1..])];
    }
  }

  /** `Decimal` is read back by `ParseNumber` whenever no digit follows it. */
  lemma ParseDecimal(n: nat, rest: seq<uint8>)
    requires rest == [] || !IsDigit(rest[0])
    ensures ParseNumber(Decimal(n) + rest) == Some((n, rest))
  {
    var d := Decimal(n);
    var s := d + rest;
    DigitRunAppend(d, rest);
    assert DigitRun(s) == |d|;
    assert s[..|d|] == d;
    assert s[|d|..] == rest;
    DecimalValue(n);
  }

  /** What is left of `s` after the literal `prefix`, if `s` starts with it. */
  function Expect(prefix: seq<uint8>, s: seq<uint8>): (r: Option<seq<uint8>>)
    ensures r.Some? ==> |r.value| == |s| - |prefix|
  {
    if prefix <= s then Some(s[|prefix|..]) else None
  }

  lemma ExpectPrefix(prefix: seq<uint8>, rest: seq<uint8>)
    ensures Expect(prefix, prefix + rest) == Some(rest)
  {
    assert prefix <= prefix + rest;
    assert (prefix + rest)[|prefix|..] == rest;
  }

  /** CUP placing the cursor at 1-based `row` and `column`: ESC [ row ; column H */
  function CursorPosition(row: nat, column: nat): seq<uint8> {
    Csi + Decimal(row) + [Semicolon] + Decimal(column) + [FinalCup]
  }

  /** SGR selecting palette entry `index` as background, then two spaces: ESC [ 48;5;index m SP SP */
  function Background(index: nat): seq<uint8> {
    Csi + BackgroundParams + Decimal(index) + [FinalSgr, Space, Space]
  }

  /** "ESC [ 0 m", byte for byte. */
  lemma ResetBytes()
    ensures Reset == [0x1B, 0x5B, 0x30, 0x6D]
  {
  }

  /** Parameter bytes of a control sequence: decimal digits and separators. */
  predicate IsParameter(c: uint8) {
    IsDigit(c) || c == Semicolon
  }

  /** CUP has the shape of a control sequence: CSI, parameter bytes, and the final byte 'H'. */
  lemma CursorPositionForm(row: nat, column: nat)
    ensures var s := CursorPosition(row, column);
      6 <= |s| && s[..2] == Csi && s[|s| - 1] == FinalCup &&
      forall k | 2 <= k < |s| - 1 :: IsParameter(s[k])
  {
    var s := CursorPosition(row, column);
    var p := Decimal(row) + [Semicolon] + Decimal(column);
    assert s == Csi + p + [FinalCup];
    forall k | 2 <= k < |s| - 1 ensures IsParameter(s[k]) {
      assert s[k] == p[k - 2];
    }
  }

  /**
   * The background command is an SGR control sequence, CSI, parameter bytes
   * and the final byte 'm', followed by two spaces.
   */
  lemma BackgroundForm(index: nat)
    ensures var s := Background(index);
      10 <= |s| && s[..2] == Csi && s[|s| - 3..] == [FinalSgr, Space, Space] &&
      forall k | 2 <= k < |s| - 3 :: IsParameter(s[k])
  {
    var s := Background(index);
    var p := BackgroundParams + Decimal(index);
    assert s == Csi + p + [FinalSgr, Space, Space];
    forall k | 2 <= k < |s| - 3 ensures IsParameter(s[k]) {
      assert s[k] == p[k - 2];
    }
  }

  function Pow10(k: nat): nat {
    if k == 0 then 1 else 10 * Pow10(k - 1)
  }

  /** A number below 10^k has at most k decimal digits. */
  lemma {:induction false} DecimalLength(n: nat, k: nat)
    requires 1 <= k && n < Pow10(k)
    ensures |Decimal(n)| <= k
  {
    if n >= 10 {
      assert 2 <= k;
      DecimalLength(n / 10, k - 1);
    }
  }

  /**
   * The cursor sequence for any `uint16_t` position, with its terminating NUL,
   * fits the 32-byte buffer it is formatted into: `snprintf` never truncates it.
   */
  lemma CursorPositionFits(x: nat, y: nat)
    requires x < 0x1_0000 && y < 0x1_0000
    ensures |CursorPosition(y + 1, 2 * x + 1)| + 1 <= 32
  {
    DecimalLength(y + 1, 5);
    DecimalLength(2 * x + 1, 6);
  }

  /** The same for the background command of any 8-bit palette index. */
  lemma BackgroundFits(index: nat)
    requires index < 256
    ensures |Background(index)| + 1 <= 32
  {
    DecimalLength(index, 3);
  }

  /** The palette index the quantizer chooses for `colour` (the value `To256` computes). */
  function PaletteIndex(colour: RGB): (index: nat)
    ensures CubeOffset <= index < CubeOffset + CubeSize
  {
    CubeOffset + CubeIndex(colour)
  }

  /**
   * The bytes written for pixel `(x, y)` of an `xRes` by `yRes` display: none
   * when the position is outside the display; otherwise the cursor goes to row
   * `y + 1`, column `2x + 1` (each pixel is two character cells wide), the
   * background is painted over two cells, and the attributes are reset.
   */
  function EncodePixel(xRes: nat, yRes: nat, x: nat, y: nat, colour: RGB): (s: seq<uint8>)
    ensures s == [] <==> x >= xRes || y >= yRes
  {
    if x >= xRes || y >= yRes then []
    else CursorPosition(y + 1, 2 * x + 1) + Background(PaletteIndex(colour)) + Reset
  }

  /** What one emission tells the terminal: paint `row`, `column` with palette entry `index`. */
  datatype Cell = Cell(row: nat, column: nat, index: nat)

  /** Reads one emission from the front of `s`, returning its cell and the bytes after it. */
  function DecodePixel(s: seq<uint8>): (r: Option<(Cell, seq<uint8>)>)
    ensures r.Some? ==> |r.value.1| < |s|
  {
    match Expect(Csi, s)
    case None => None
    case Some(s1) =>
      match ParseNumber(s1)
      case None => None
      case Some((row, s2)) =>
        match Expect([Semicolon], s2)
        case None => None
        case Some(s3) =>
          match ParseNumber(s3)
          case None => None
          case Some((column, s4)) =>
            match Expect([FinalCup] + Csi + BackgroundParams, s4)
            case None => None
            case Some(s5) =>
              match ParseNumber(s5)
              case None => None
              case Some((index, s6)) =>
                match Expect([FinalSgr, Space, Space] + Reset, s6)
                case None => None
                case Some(s7) => Some((Cell(row, column, index), s7))
  }

  /** Concatenation regrouped to the right, as the decoder consumes it. */
  lemma AppendAssociative<T>(a: seq<T>, b: seq<T>, c: seq<T>)
    ensures (a + b) + c == a + (b + c)
  {
  }

  /** A cursor position followed by `t`, split at the points where the decoder cuts it. */
  lemma CursorPositionThen(row: nat, column: nat, t: seq<uint8>)
    ensures CursorPosition(row, column) + t ==
            Csi + (Decimal(row) + ([Semicolon] + (Decimal(column) + ([FinalCup] + t))))
  {
  }

  /** A background command followed by `t`, split at the points where the decoder cuts it. */
  lemma BackgroundThen(index: nat, t: seq<uint8>)
    ensures Background(index) + t == Csi + (BackgroundParams + (Decimal(index) + ([FinalSgr, Space, Space] + t)))
  {
  }

  /**
   * Decoding the cursor position, background and reset for `row`, `column` and
   * `index` recovers all three and consumes exactly those bytes.
   */
  lemma DecodeCommands(row: nat, column: nat, index: nat, rest: seq<uint8>)
    ensures DecodePixel(CursorPosition(row, column) + Background(index) + Reset + rest) ==
            Some((Cell(row, column, index), rest))
  {
    var tail6 := [FinalSgr, Space, Space] + (Reset + rest);
    var tail5 := Decimal(index) + tail6;
    var tail4 := [FinalCup] + (Csi + (BackgroundParams + tail5));
    var tail3 := Decimal(column) + tail4;
    var tail2 := [Semicolon] + tail3;
    var tail1 := Decimal(row) + tail2;
    BackgroundThen(index, Reset + rest);
    CursorPositionThen(row, column, Background(index) + (Reset + rest));
    assert CursorPosition(row, column) + Background(index) + Reset + rest == Csi + tail1;
    ExpectPrefix(Csi, tail1);
    ParseDecimal(row, tail2);
    ExpectPrefix([Semicolon], tail3);
    ParseDecimal(column, tail4);
    AppendAssociative([FinalCup] + Csi, BackgroundParams, tail5);
    AppendAssociative([FinalCup], Csi, BackgroundParams + tail5);
    ExpectPrefix([FinalCup] + Csi + BackgroundParams, tail5);
    ParseDecimal(index, tail6);
    AppendAssociative([FinalSgr, Space, Space], Reset, rest);
    ExpectPrefix([FinalSgr, Space, Space] + Reset, rest);
  }

  /**
   * Round trip: decoding the bytes of an in-range emission recovers row `y + 1`,
   * column `2x + 1` and the quantized colour, and consumes exactly those bytes.
   */
  lemma DecodeEncodePixel(xRes: nat, yRes: nat, x: nat, y: nat, colour: RGB, rest: seq<uint8>)
    requires x < xRes && y < yRes
    ensures DecodePixel(EncodePixel(xRes, yRes, x, y, colour) + rest) ==
            Some((Cell(y + 1, 2 * x + 1, PaletteIndex(colour)), rest))
  {
    DecodeCommands(y + 1, 2 * x + 1, PaletteIndex(colour), rest);
  }
}
