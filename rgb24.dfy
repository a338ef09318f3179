/**
 * RGB24 colour values and the quantizer that maps them onto the xterm 256-colour
 * palette: the 216 entries 16..231 form a 6x6x6 cube of (red, green, blue) levels.
 */
module Rgb24 {

  import Arith

  /** An 8-bit channel (`uint8_t`). */
  type uint8 = x: int | 0 <= x < 256

  /** `struct rgb24`: three independent 8-bit channels. */
  datatype RGB = RGB(r: uint8, g: uint8, b: uint8)

  const Black := RGB(0, 0, 0)
  const White := RGB(255, 255, 255)

  /** Number of cells in the colour cube, and the palette index of cell 0. */
  const CubeSize := 216
  const CubeOffset := 16

  /** The six channel intensities of the cube, as xterm defines them. */
  const CubeLevels: seq<nat> := [0, 95, 135, 175, 215, 255]

  /** `rgb24_equal`: channel-wise comparison. */
  predicate Equal(a: RGB, b: RGB)
    ensures Equal(a, b) <==> a == b
  {
    a.r == b.r && a.g == b.g && a.b == b.b
  }

  /** The grey whose three channels are all `v`. */
  function Gray(v: uint8): RGB {
    RGB(v, v, v)
  }

  /** `rgb24_is_grayscale`: all three channels agree. */
  predicate IsGrayscale(c: RGB)
    ensures IsGrayscale(c) <==> c == Gray(c.r)
  {
    c.r == c.g && c.g == c.b
  }

  function Abs(n: int): nat {
    if n < 0 then -n else n
  }

  /**
   * The intensity that `calc_distance` compares a channel against, for every
   * `uint8_t` argument. The first branch would serve grey-ramp indices above 215;
   * the quantizer never passes a cube coordinate above 5 (see `CoordinatesInCube`).
   */
  function Level(index: uint8): nat {
    if index > 215 then index * 10 - 2152 else index * 40 + (if index > 0 then 55 else 0)
  }

  /** `calc_distance`: absolute difference between a channel and a level. */
  function Distance(target: uint8, index: uint8): nat {
    Abs(target - Level(index))
  }

  /** The cube coordinates of entry `i`: red is the most, blue the least significant. */
  function RedCoord(i: nat): uint8 requires i < CubeSize { i / 36 }
  function GreenCoord(i: nat): uint8 requires i < CubeSize { (i / 6) % 6 }
  function BlueCoord(i: nat): uint8 requires i < CubeSize { i % 6 }

  /** Total L1 error of representing colour `c` by cube entry `i`. */
  function EntryDistance(c: RGB, i: nat): nat
    requires i < CubeSize
  {
    Distance(c.r, RedCoord(i)) + Distance(c.g, GreenCoord(i)) + Distance(c.b, BlueCoord(i))
  }

  /**
   * Entry `k` is the one the quantizer must pick: no entry is closer, and every
   * entry with a smaller index is strictly farther (the first minimum wins).
   */
  ghost predicate IsNearest(c: RGB, k: nat) {
    k < CubeSize &&
    (forall j | 0 <= j < CubeSize :: EntryDistance(c, k) <= EntryDistance(c, j)) &&
    (forall j | 0 <= j < k :: EntryDistance(c, k) < EntryDistance(c, j))
  }

  /** Every coordinate the scan passes to `calc_distance` lies in 0..5. */
  lemma CoordinatesInCube(i: nat)
    requires i < CubeSize
    ensures RedCoord(i) < 6 && GreenCoord(i) < 6 && BlueCoord(i) < 6
    ensures i == 36 * RedCoord(i) + 6 * GreenCoord(i) + BlueCoord(i)
  {
  }

  /** On the cube coordinates `Level` yields exactly the six xterm levels, all at most 255. */
  lemma LevelsOfCube(p: uint8)
    requires p < 6
    ensures Level(p) == CubeLevels[p] && Level(p) <= 255
    ensures Level(p) == if p == 0 then 0 else 40 * p + 55
  {
  }

  /**
   * Above 215 `Level` computes 10 * index - 2152, that is 8 + 10 * (index - 216).
   * For 216..239 this is the xterm grey-ramp level of palette entry
   * 232 + (index - 216); for 240..255 it gives 248..398, which is no palette level.
   */
  lemma LevelOfGreyRamp(index: uint8)
    requires index > 215
    ensures Level(index) == 8 + 10 * (index - 216)
  {
  }

  /** `calc_distance` is the absolute difference, and is zero exactly on the level itself. */
  lemma DistanceIsAbsolute(target: uint8, index: uint8)
    ensures target + Distance(target, index) == Level(index) || Level(index) + Distance(target, index) == target
    ensures Distance(target, index) == 0 <==> target == Level(index)
  {
  }

  /** An entry is at distance zero exactly when the colour is that entry's colour, channel by channel. */
  lemma ExactEntry(c: RGB, i: nat)
    requires i < CubeSize
    ensures EntryDistance(c, i) == 0 <==>
            c.r == Level(RedCoord(i)) && c.g == Level(GreenCoord(i)) && c.b == Level(BlueCoord(i))
  {
    DistanceIsAbsolute(c.r, RedCoord(i));
    DistanceIsAbsolute(c.g, GreenCoord(i));
    DistanceIsAbsolute(c.b, BlueCoord(i));
  }

  /**
   * The nearest cube level to one channel value, the lower one on a tie. The
   * midpoints between consecutive levels are 47.5, 115, 155, 195 and 235.
   */
  function NearestLevel(t: uint8): (p: uint8)
    ensures p < 6
  {
    if t <= 47 then 0
    else if t <= 115 then 1
    else if t <= 155 then 2
    else if t <= 195 then 3
    else if t <= 235 then 4
    else 5
  }

  /** `NearestLevel(t)` is a first minimum of the channel error over the six levels. */
  lemma NearestLevelIsNearest(t: uint8, q: uint8)
    requires q < 6
    ensures Distance(t, NearestLevel(t)) <= Distance(t, q)
    ensures q < NearestLevel(t) ==> Distance(t, NearestLevel(t)) < Distance(t, q)
  {
  }

  /** No channel value is farther than 47 from its nearest cube level. */
  lemma NearestLevelError(t: uint8)
    ensures Distance(t, NearestLevel(t)) <= 47
  {
  }

  /** The cube entry assembled from the nearest level of each channel. */
  function CubeIndex(c: RGB): (k: nat)
    ensures k < CubeSize
  {
    36 * NearestLevel(c.r) + 6 * NearestLevel(c.g) + NearestLevel(c.b)
  }

  /** Entry `k = 36a + 6b + c` has cube coordinates `(a, b, c)`, so its error splits per channel. */
  lemma CubeEntryCoordinates(col: RGB, a: uint8, b: uint8, c: uint8, k: nat)
    requires a < 6 && b < 6 && c < 6 && k == 36 * a + 6 * b + c
    ensures k < CubeSize
    ensures RedCoord(k) == a && GreenCoord(k) == b && BlueCoord(k) == c
    ensures EntryDistance(col, k) == Distance(col.r, a) + Distance(col.g, b) + Distance(col.b, c)
  {
    Arith.DivModUnique(k, 36, a, 6 * b + c);
    Arith.DivModUnique(k, 6, 6 * a + b, c);
    Arith.DivModUnique(6 * a + b, 6, a, b);
  }

  /**
   * Separability: because the error is a sum over independent channels, the
   * entry built from each channel's nearest level is the overall nearest entry,
   * and the lowest-indexed one among equals.
   */
  lemma CubeIndexIsNearest(c: RGB)
    ensures IsNearest(c, CubeIndex(c))
  {
    var pr, pg, pb := NearestLevel(c.r), NearestLevel(c.g), NearestLevel(c.b);
    var k := CubeIndex(c);
    CubeEntryCoordinates(c, pr, pg, pb, k);
    forall j | 0 <= j < CubeSize
      ensures EntryDistance(c, k) <= EntryDistance(c, j)
      ensures j < k ==> EntryDistance(c, k) < EntryDistance(c, j)
    {
      CoordinatesInCube(j);
      var a, b, d := RedCoord(j), GreenCoord(j), BlueCoord(j);
      assert EntryDistance(c, j) == Distance(c.r, a) + Distance(c.g, b) + Distance(c.b, d);
      NearestLevelIsNearest(c.r, a);
      NearestLevelIsNearest(c.g, b);
      NearestLevelIsNearest(c.b, d);
      assert j < k ==> a < pr || (a == pr && (b < pg || (b == pg && d < pb)));
    }
  }

  /** At most one entry satisfies `IsNearest`. */
  lemma NearestIsUnique(c: RGB, k1: nat, k2: nat)
    requires IsNearest(c, k1) && IsNearest(c, k2)
    ensures k1 == k2
  {
    assert EntryDistance(c, k1) <= EntryDistance(c, k2) && EntryDistance(c, k2) <= EntryDistance(c, k1);
  }

  /**
   * The nearest entry is never more than 3 * 47 = 141 away, so it always beats
   * the quantizer's starting threshold of 240.
   */
  lemma SentinelIsBeaten(c: RGB)
    ensures EntryDistance(c, CubeIndex(c)) <= 141 < 240
  {
    CubeEntryCoordinates(c, NearestLevel(c.r), NearestLevel(c.g), NearestLevel(c.b), CubeIndex(c));
    NearestLevelError(c.r);
    NearestLevelError(c.g);
    NearestLevelError(c.b);
  }

  /** The bound 141 is reached, at grey 47. */
  lemma WorstCaseError()
    ensures EntryDistance(Gray(47), CubeIndex(Gray(47))) == 141
  {
    assert CubeIndex(Gray(47)) == 0;
  }

  /** Black is cube entry 0 (palette index 16), represented exactly. */
  lemma BlackCorner()
    ensures EntryDistance(Black, 0) == 0
    ensures CubeIndex(Black) == 0
  {
    assert NearestLevel(0) == 0 && Level(0) == 0;
    CubeEntryCoordinates(Black, 0, 0, 0, 0);
  }

  /** White is cube entry 215 (palette index 231), represented exactly. */
  lemma WhiteCorner()
    ensures EntryDistance(White, 215) == 0
    ensures CubeIndex(White) == 215
  {
    assert NearestLevel(255) == 5 && Level(5) == 255;
    CubeEntryCoordinates(White, 5, 5, 5, 215);
  }

  /**
   * What the scan knows when it ends: `best` is a first minimum, or the
   * threshold 240 was never beaten. The second case cannot happen.
   */
  lemma ScanFindsCubeIndex(c: RGB, best: nat, min: nat)
    requires best < CubeSize
    requires (min == 240 && best == 0) || min == EntryDistance(c, best)
    requires forall j | 0 <= j < CubeSize :: min <= EntryDistance(c, j)
    requires forall j | 0 <= j < best :: min < EntryDistance(c, j)
    ensures min == EntryDistance(c, best) && IsNearest(c, best)
    ensures best == CubeIndex(c)
  {
    SentinelIsBeaten(c);
    CubeIndexIsNearest(c);
    assert min <= EntryDistance(c, CubeIndex(c));
    NearestIsUnique(c, best, CubeIndex(c));
  }

  /**
   * What the scan of `rgb24_to_256` knows after entries `0 .. i-1`: `best` is the
   * first of them with the least error `min`, or none beat the threshold 240.
   */
  ghost predicate ScanState(c: RGB, i: nat, best: nat, min: nat) {
    i <= CubeSize &&
    ((min == 240 && best == 0) || (best < i && min == EntryDistance(c, best))) &&
    (forall j | 0 <= j < i :: min <= EntryDistance(c, j)) &&
    (forall j | 0 <= j < best :: min < EntryDistance(c, j))
  }

  /** Entry `i` is strictly closer than the best so far: it becomes the best. */
  lemma ScanTakes(c: RGB, i: nat, best: nat, min: nat)
    requires i < CubeSize && ScanState(c, i, best, min) && EntryDistance(c, i) < min
    ensures ScanState(c, i + 1, i, EntryDistance(c, i))
  {
  }

  /** Entry `i` is no closer than the best so far: the best stays. */
  lemma ScanKeeps(c: RGB, i: nat, best: nat, min: nat)
    requires i < CubeSize && ScanState(c, i, best, min) && min <= EntryDistance(c, i)
    ensures ScanState(c, i + 1, best, min)
  {
  }

  /**
   * `rgb24_to_256`: scans the 216 cube entries in index order, keeping the first
   * one whose error is strictly below the best so far (initially 240).
   */
  method To256(color: RGB) returns (index: uint8)
    ensures CubeOffset <= index <= CubeOffset + CubeSize - 1
    ensures IsNearest(color, index - CubeOffset)
    ensures index == CubeOffset + CubeIndex(color)
  {
    var minDistance: nat := 240;
    var bestIndex: uint8 := 0;
    var i := 0;
    while i < CubeSize
      invariant ScanState(color, i, bestIndex, minDistance)
    {
      var rDist := Distance(color.r, RedCoord(i));
      var gDist := Distance(color.g, GreenCoord(i));
      var bDist := Distance(color.b, BlueCoord(i));
      var totalDist := rDist + gDist + bDist;
      assert totalDist == EntryDistance(color, i);
      if totalDist < minDistance {
        ScanTakes(color, i, bestIndex, minDistance);
        minDistance := totalDist;
        bestIndex := i;
      } else {
        ScanKeeps(color, i, bestIndex, minDistance);
      }
      i := i + 1;
    }
    ScanFindsCubeIndex(color, bestIndex, minDistance);
    index := bestIndex + CubeOffset;
  }
}
