/** Comparing two RGBA screenshots: one loop counts changed pixels over the whole buffer, another over
    a 3x3 grid whose last row and column of cells take the remainder.  The lemmas show that the grid
    refines the global count and that a screen reported as changed always shows a changed region. */
module ScreenDiff {
  import opened Basics
  import opened Bytes

  const U32_SIZE: nat := 0x1_0000_0000
  const GRID := 3
  const CELLS := 9
  const CELL_THRESHOLD: byte := 10

  function AbsDiff(a: byte, b: byte): byte {
    if a < b then b - a else a - b
  }

  /** The pixel at byte offset `i` differs in a colour channel by more than `threshold`. */
  predicate Differs(before: seq<byte>, after: seq<byte>, i: nat, threshold: byte)
    requires i + 2 < |before| && i + 2 < |after|
  {
    || AbsDiff(before[i], after[i]) > threshold
    || AbsDiff(before[i + 1], after[i + 1]) > threshold
    || AbsDiff(before[i + 2], after[i + 2]) > threshold
  }

  /** Channel `k` went up or down by more than `threshold`. */
  ghost predicate ChannelMoved(before: seq<byte>, after: seq<byte>, i: nat, k: nat, threshold: byte)
    requires i + k < |before| && i + k < |after|
  {
    before[i + k] - after[i + k] > threshold || after[i + k] - before[i + k] > threshold
  }

  /** A pixel differs exactly if its red, green or blue went up or down by more than the threshold. */
  lemma DiffersIff(before: seq<byte>, after: seq<byte>, i: nat, threshold: byte)
    requires i + 2 < |before| && i + 2 < |after|
    ensures Differs(before, after, i, threshold)
       <==> exists k: nat | k < 3 :: ChannelMoved(before, after, i, k, threshold)
  {
    if Differs(before, after, i, threshold) {
      assert || ChannelMoved(before, after, i, 0, threshold)
             || ChannelMoved(before, after, i, 1, threshold)
             || ChannelMoved(before, after, i, 2, threshold);
    }
  }

  lemma DiffersSymmetric(before: seq<byte>, after: seq<byte>, i: nat, threshold: byte)
    requires i + 2 < |before| && i + 2 < |after|
    ensures Differs(before, after, i, threshold) <==> Differs(after, before, i, threshold)
  {
  }

  // ---------- The global count ----------

  /** Changed pixels among the first `n`. */
  function ChangedPixels(before: seq<byte>, after: seq<byte>, threshold: byte, n: nat): (c: nat)
    requires 4 * n <= |before| && 4 * n <= |after|
    ensures c <= n
  {
    if n == 0 then 0
    else
      ChangedPixels(before, after, threshold, n - 1)
      + if Differs(before, after, 4 * (n - 1), threshold) then 1 else 0
  }

  /** The pixels among the first `n` in which some colour went up or down by more than the threshold. */
  ghost function MovedPixels(before: seq<byte>, after: seq<byte>, threshold: byte, n: nat): set<nat>
    requires 4 * n <= |before| && 4 * n <= |after|
  {
    set p: nat | p < n && MovedPixel(before, after, threshold, p)
  }

  ghost predicate MovedPixel(before: seq<byte>, after: seq<byte>, threshold: byte, p: nat)
    requires 4 * p + 3 < |before| && 4 * p + 3 < |after|
  {
    exists k: nat | k < 3 :: ChannelMoved(before, after, 4 * p, k, threshold)
  }

  /** The global loop counts these. */
  lemma {:induction false} ChangedPixelsCount(before: seq<byte>, after: seq<byte>, threshold: byte, n: nat)
    requires 4 * n <= |before| && 4 * n <= |after|
    ensures ChangedPixels(before, after, threshold, n) == |MovedPixels(before, after, threshold, n)|
  {
    if n == 0 {
      assert MovedPixels(before, after, threshold, n) == {};
    } else {
      ChangedPixelsCount(before, after, threshold, n - 1);
      DiffersIff(before, after, 4 * (n - 1), threshold);
      assert MovedPixels(before, after, threshold, n)
          == MovedPixels(before, after, threshold, n - 1)
             + if MovedPixel(before, after, threshold, n - 1) then {n - 1} else {};
    }
  }

  /** It does not matter which screenshot is the earlier one. */
  lemma {:induction false} ChangedPixelsSymmetric(before: seq<byte>, after: seq<byte>, threshold: byte, n: nat)
    requires 4 * n <= |before| && 4 * n <= |after|
    ensures ChangedPixels(before, after, threshold, n) == ChangedPixels(after, before, threshold, n)
  {
    if n > 0 {
      ChangedPixelsSymmetric(before, after, threshold, n - 1);
      DiffersSymmetric(before, after, 4 * (n - 1), threshold);
    }
  }

  /** Transparency alone does not count. */
  lemma {:induction false} AlphaDoesNotCount(before: seq<byte>, after: seq<byte>, threshold: byte, n: nat)
    requires 4 * n <= |before| && 4 * n <= |after|
    requires forall i | 0 <= i < 4 * n && i % 4 != 3 :: before[i] == after[i]
    ensures ChangedPixels(before, after, threshold, n) == 0
  {
    if n > 0 {
      AlphaDoesNotCount(before, after, threshold, n - 1);
      var i := 4 * (n - 1);
      assert before[i] == after[i] && before[i + 1] == after[i + 1] && before[i + 2] == after[i + 2];
    }
  }

  function Percentage(part: nat, whole: nat): real
    requires whole > 0
  {
    (part as real / whole as real) * 100.0
  }

  /** Comparing a percentage with a number of tenths is comparing counts. */
  lemma AboveTenths(part: nat, whole: nat, tenths: nat)
    requires whole > 0
    ensures Percentage(part, whole) > tenths as real / 10.0 <==> 1000 * part > tenths * whole
  {
    var q, w, t := part as real / whole as real, whole as real, tenths as real / 1000.0;
    assert q * w == part as real;
    assert t * w == (tenths * whole) as real / 1000.0;
    if q > t {
      PositiveProduct(q - t, w);
    } else if q < t {
      PositiveProduct(t - q, w);
    }
  }

  lemma PositiveProduct(a: real, b: real)
    requires a > 0.0 && b > 0.0
    ensures a * b > 0.0
  {
  }

  lemma AboveHalfPercent(part: nat, whole: nat)
    requires whole > 0
    ensures Percentage(part, whole) > 0.5 <==> 200 * part > whole
  {
    AboveTenths(part, whole, 5);
  }

  function GlobalPercentage(before: seq<byte>, after: seq<byte>, threshold: byte): real
    requires |before| == |after| ==> |before| % 4 == 0
  {
    if |before| != |after| || |before| == 0 then 100.0
    else Percentage(ChangedPixels(before, after, threshold, |before| / 4), |before| / 4)
  }

  lemma GlobalMeaning(before: seq<byte>, after: seq<byte>, threshold: byte)
    requires |before| == |after| > 0 && |before| % 4 == 0
    ensures GlobalPercentage(before, after, threshold)
         == (|MovedPixels(before, after, threshold, |before| / 4)| as real / (|before| / 4) as real) * 100.0
  {
    ChangedPixelsCount(before, after, threshold, |before| / 4);
  }

  method PixelDiffPercentage(before: seq<byte>, after: seq<byte>, threshold: byte) returns (pct: real)
    requires |before| == |after| ==> |before| % 4 == 0
    ensures pct == GlobalPercentage(before, after, threshold)
    ensures |before| != |after| || |before| == 0 ==> pct == 100.0
    ensures |before| == |after| > 0 ==>
              pct == (|MovedPixels(before, after, threshold, |before| / 4)| as real / (|before| / 4) as real) * 100.0
  {
    if |before| != |after| || |before| == 0 {
      return 100.0;
    }
    GlobalMeaning(before, after, threshold);
    var pixelCount := |before| / 4;
    var changed: nat := 0;
    var i: nat := 0;
    while i < |before|
      invariant i % 4 == 0 && i <= |before|
      invariant changed == ChangedPixels(before, after, threshold, i / 4)
    {
      var dr := AbsDiff(before[i], after[i]);
      var dg := AbsDiff(before[i + 1], after[i + 1]);
      var db := AbsDiff(before[i + 2], after[i + 2]);
      if dr > threshold || dg > threshold || db > threshold {
        changed := changed + 1;
      }
      i := i + 4;
      assert i / 4 - 1 == (i - 4) / 4 && 4 * (i / 4 - 1) == i - 4;
    }
    pct := (changed as real / pixelCount as real) * 100.0;
  }

  // ---------- The grid count ----------

  /** Two screenshots and the width they are read with. */
  datatype Frames = Frames(before: seq<byte>, after: seq<byte>, width: nat)

  datatype Kind = All | Changed

  /** Byte offset of a pixel, in u32 arithmetic. */
  function Index(width: nat, row: nat, col: nat): nat {
    (row * width + col) * 4 % U32_SIZE
  }

  /** The pixel lies inside both buffers and, for `Changed`, differs. */
  predicate Hits(f: Frames, kind: Kind, row: nat, col: nat) {
    var i := Index(f.width, row, col);
    && i + 3 < |f.before|
    && i + 3 < |f.after|
    && (kind == Changed ==> Differs(f.before, f.after, i, CELL_THRESHOLD))
  }

  function CountRow(f: Frames, kind: Kind, row: nat, x0: nat, x1: nat): nat {
    if x1 <= x0 then 0
    else CountRow(f, kind, row, x0, x1 - 1) + if Hits(f, kind, row, x1 - 1) then 1 else 0
  }

  function CountRect(f: Frames, kind: Kind, x0: nat, x1: nat, y0: nat, y1: nat): nat {
    if y1 <= y0 then 0
    else CountRect(f, kind, x0, x1, y0, y1 - 1) + CountRow(f, kind, y1 - 1, x0, x1)
  }

  /** Where cell number `g` starts along a side of length `n`. */
  function CellStart(n: nat, g: nat): nat {
    g * (n / GRID)
  }

  function CellEnd(n: nat, g: nat): nat {
    if g == GRID - 1 then n else CellStart(n, g) + n / GRID
  }

  function CountCellAt(f: Frames, kind: Kind, height: nat, gx: nat, gy: nat): nat {
    CountRect(f, kind, CellStart(f.width, gx), CellEnd(f.width, gx), CellStart(height, gy), CellEnd(height, gy))
  }

  function CellCount(f: Frames, kind: Kind, height: nat, cell: nat): nat
    requires cell < CELLS
  {
    CountCellAt(f, kind, height, cell % GRID, cell / GRID)
  }

  /** The grid counts the pixels that lie inside both buffers, and of them those in which some colour went up or
      down by more than ten. */
  lemma HitsIff(f: Frames, row: nat, col: nat)
    ensures var i := (row * f.width + col) * 4 % 0x1_0000_0000;
            && (Hits(f, All, row, col) <==> i + 3 < |f.before| && i + 3 < |f.after|)
            && (Hits(f, Changed, row, col) <==>
                  i + 3 < |f.before| && i + 3 < |f.after| && exists k: nat | k < 3 ::
                    ChannelMoved(f.before, f.after, i, k, 10))
  {
    if Hits(f, All, row, col) {
      DiffersIff(f.before, f.after, Index(f.width, row, col), 10);
    }
  }

  /** The pixels of a rectangle that are counted. */
  ghost function Counted(f: Frames, kind: Kind, x0: nat, x1: nat, y0: nat, y1: nat): set<(nat, nat)> {
    set row: nat, col: nat | y0 <= row < y1 && x0 <= col < x1 && Hits(f, kind, row, col) :: (row, col)
  }

  lemma CountedInRow(f: Frames, kind: Kind, row: nat, x0: nat, x1: nat)
    requires x0 < x1
    ensures (row, x1 - 1) !in Counted(f, kind, x0, x1 - 1, row, row + 1)
    ensures Counted(f, kind, x0, x1, row, row + 1)
         == Counted(f, kind, x0, x1 - 1, row, row + 1) + if Hits(f, kind, row, x1 - 1) then {(row, x1 - 1)} else {}
  {
  }

  lemma CountedByRow(f: Frames, kind: Kind, x0: nat, x1: nat, y0: nat, y1: nat)
    requires y0 < y1
    ensures Counted(f, kind, x0, x1, y0, y1 - 1) !! Counted(f, kind, x0, x1, y1 - 1, y1)
    ensures Counted(f, kind, x0, x1, y0, y1)
         == Counted(f, kind, x0, x1, y0, y1 - 1) + Counted(f, kind, x0, x1, y1 - 1, y1)
  {
  }

  lemma {:induction false} CountRowIsCount(f: Frames, kind: Kind, row: nat, x0: nat, x1: nat)
    ensures CountRow(f, kind, row, x0, x1) == |Counted(f, kind, x0, x1, row, row + 1)|
  {
    if x1 <= x0 {
      assert Counted(f, kind, x0, x1, row, row + 1) == {};
    } else {
      CountRowIsCount(f, kind, row, x0, x1 - 1);
      CountedInRow(f, kind, row, x0, x1);
    }
  }

  lemma Cardinality(a: set<(nat, nat)>, b: set<(nat, nat)>)
    requires a !! b
    ensures |a + b| == |a| + |b|
  {
  }

  /** The loop over a cell counts each such pixel once. */
  lemma {:induction false} CountRectIsCount(f: Frames, kind: Kind, x0: nat, x1: nat, y0: nat, y1: nat)
    ensures CountRect(f, kind, x0, x1, y0, y1) == |Counted(f, kind, x0, x1, y0, y1)|
  {
    if y1 <= y0 {
      assert Counted(f, kind, x0, x1, y0, y1) == {};
    } else {
      CountRectIsCount(f, kind, x0, x1, y0, y1 - 1);
      CountRowIsCount(f, kind, y1 - 1, x0, x1);
      CountedByRow(f, kind, x0, x1, y0, y1);
      Cardinality(Counted(f, kind, x0, x1, y0, y1 - 1), Counted(f, kind, x0, x1, y1 - 1, y1));
    }
  }

  datatype Intensity = Low | Medium | High

  /** `area` counts the nine cells row by row from the top left. */
  datatype Region = Region(area: nat, percentage: real, intensity: Intensity)

  function RegionOf(area: nat, changed: nat, total: nat): seq<Region> {
    if total == 0 then []
    else
      var pct := Percentage(changed, total);
      if pct > 0.5
      then [Region(area, pct, if pct > 30.0 then High else if pct > 5.0 then Medium else Low)]
      else []
  }

  /** The regions reported for the first `n` cells. */
  function Regions(f: Frames, height: nat, n: nat): seq<Region>
    requires n <= CELLS
  {
    if n == 0 then []
    else
      Regions(f, height, n - 1)
      + RegionOf(n - 1, CellCount(f, Changed, height, n - 1), CellCount(f, All, height, n - 1))
  }

  method CountCell(f: Frames, x0: nat, x1: nat, y0: nat, y1: nat) returns (changed: nat, total: nat)
    ensures changed == CountRect(f, Changed, x0, x1, y0, y1)
    ensures total == CountRect(f, All, x0, x1, y0, y1)
    ensures changed == |Counted(f, Changed, x0, x1, y0, y1)| && total == |Counted(f, All, x0, x1, y0, y1)|
  {
    CountRectIsCount(f, Changed, x0, x1, y0, y1);
    CountRectIsCount(f, All, x0, x1, y0, y1);
    changed, total := 0, 0;
    var row := y0;
    while row < y1
      invariant row <= y1 || row == y0
      invariant changed == CountRect(f, Changed, x0, x1, y0, row)
      invariant total == CountRect(f, All, x0, x1, y0, row)
    {
      ghost var c, t := changed, total;
      var col := x0;
      while col < x1
        invariant col <= x1 || col == x0
        invariant changed == c + CountRow(f, Changed, row, x0, col)
        invariant total == t + CountRow(f, All, row, x0, col)
      {
        var i := Index(f.width, row, col);
        if i + 3 < |f.before| && i + 3 < |f.after| {
          total := total + 1;
          var dr := AbsDiff(f.before[i], f.after[i]);
          var dg := AbsDiff(f.before[i + 1], f.after[i + 1]);
          var db := AbsDiff(f.before[i + 2], f.after[i + 2]);
          if dr > 10 || dg > 10 || db > 10 {
            changed := changed + 1;
          }
        }
        col := col + 1;
      }
      row := row + 1;
    }
  }

  /** The cells of a side start at 0, meet without gap or overlap, and end at its length; all are a third of it
      long, the last one up to two longer. */
  lemma CellsMeet(length: nat)
    ensures CellStart(length, 0) == 0 && CellEnd(length, GRID - 1) == length
    ensures forall g: nat | g < GRID - 1 :: CellEnd(length, g) == CellStart(length, g + 1)
    ensures forall g: nat | g < GRID ::
              0 <= CellEnd(length, g) - CellStart(length, g) - length / GRID <= if g < GRID - 1 then 0 else 2
  {
    forall g: nat | g < GRID
      ensures g < GRID - 1 ==> CellEnd(length, g) == CellStart(length, g + 1)
      ensures 0 <= CellEnd(length, g) - CellStart(length, g) - length / GRID <= if g < GRID - 1 then 0 else 2
    {
      assert g == 0 || g == 1 || g == 2;
    }
  }

  method CellBounds(length: nat, g: nat) returns (start: nat, end: nat)
    requires g < GRID
    ensures start == CellStart(length, g) && end == CellEnd(length, g)
    ensures start <= end <= length && (g == 0 ==> start == 0) && (g == GRID - 1 ==> end == length)
  {
    CellsMeet(length);
    assert g == 0 || g == 1 || g == 2;
    var side := length / GRID;
    start := g * side;
    end := if g == GRID - 1 then length else start + side;
  }

  /** A cell is reported if more than one in two hundred of its pixels changed; the intensity is low up to one in
      twenty, and high above three in ten. */
  lemma RegionMeaning(area: nat, changed: nat, total: nat)
    ensures var report := RegionOf(area, changed, total);
            && (report != [] <==> total > 0 && 200 * changed > total)
            && (report != [] ==>
                  && |report| == 1
                  && report[0].area == area
                  && report[0].percentage == (changed as real / total as real) * 100.0
                  && (report[0].intensity == Low <==> 20 * changed <= total)
                  && (report[0].intensity == High <==> 10 * changed > 3 * total))
  {
    if total > 0 {
      AboveTenths(changed, total, 5);
      AboveTenths(changed, total, 50);
      AboveTenths(changed, total, 300);
    }
  }

  /** Both comparisons are symmetric in the two screenshots. */
  lemma ComparisonSymmetric(before: seq<byte>, after: seq<byte>, width: nat, height: nat, n: nat)
    requires n <= CELLS && |before| % 4 == 0
    ensures GlobalPercentage(before, after, CELL_THRESHOLD) == GlobalPercentage(after, before, CELL_THRESHOLD)
    ensures Regions(Frames(before, after, width), height, n) == Regions(Frames(after, before, width), height, n)
  {
    if |before| == |after| {
      ChangedPixelsSymmetric(before, after, CELL_THRESHOLD, |before| / 4);
    }
    RegionsSymmetric(before, after, width, height, n);
  }

  lemma {:induction false} RegionsSymmetric(before: seq<byte>, after: seq<byte>, width: nat, height: nat, n: nat)
    requires n <= CELLS
    ensures Regions(Frames(before, after, width), height, n) == Regions(Frames(after, before, width), height, n)
  {
    if n > 0 {
      RegionsSymmetric(before, after, width, height, n - 1);
      CellSymmetric(before, after, width, height, n - 1, All);
      CellSymmetric(before, after, width, height, n - 1, Changed);
    }
  }

  lemma CellSymmetric(before: seq<byte>, after: seq<byte>, width: nat, height: nat, cell: nat, kind: Kind)
    requires cell < CELLS
    ensures CellCount(Frames(before, after, width), kind, height, cell)
         == CellCount(Frames(after, before, width), kind, height, cell)
  {
    var f, g := Frames(before, after, width), Frames(after, before, width);
    var x0, x1 := CellStart(width, cell % GRID), CellEnd(width, cell % GRID);
    var y0, y1 := CellStart(height, cell / GRID), CellEnd(height, cell / GRID);
    CountRectIsCount(f, kind, x0, x1, y0, y1);
    CountRectIsCount(g, kind, x0, x1, y0, y1);
    HitsSymmetric(f, g, kind);
    assert Counted(f, kind, x0, x1, y0, y1) == Counted(g, kind, x0, x1, y0, y1);
  }

  lemma HitsSymmetric(f: Frames, g: Frames, kind: Kind)
    requires g == Frames(f.after, f.before, f.width)
    ensures forall row: nat, col: nat :: Hits(f, kind, row, col) <==> Hits(g, kind, row, col)
  {
    forall row: nat, col: nat ensures Hits(f, kind, row, col) <==> Hits(g, kind, row, col) {
      if Hits(f, All, row, col) {
        DiffersSymmetric(f.before, f.after, Index(f.width, row, col), CELL_THRESHOLD);
      }
    }
  }

  method ReportCell(area: nat, changed: nat, total: nat) returns (report: seq<Region>)
    ensures report == RegionOf(area, changed, total)
    ensures report != [] <==> total > 0 && 200 * changed > total
    ensures report != [] ==>
              && (report[0].intensity == Low <==> 20 * changed <= total)
              && (report[0].intensity == High <==> 10 * changed > 3 * total)
  {
    RegionMeaning(area, changed, total);
    report := [];
    if total > 0 {
      var pct := (changed as real / total as real) * 100.0;
      if pct > 0.5 {
        var intensity := if pct > 30.0 then High else if pct > 5.0 then Medium else Low;
        report := [Region(area, pct, intensity)];
      }
    }
  }

  /** The body of the loop over the cells. */
  method CellReport(f: Frames, height: nat, gx: nat, gy: nat) returns (report: seq<Region>)
    requires gx < GRID && gy < GRID
    ensures report == RegionOf(
                        GRID * gy + gx, CountCellAt(f, Changed, height, gx, gy), CountCellAt(f, All, height, gx, gy))
  {
    var x0, x1 := CellBounds(f.width, gx);
    var y0, y1 := CellBounds(height, gy);
    var changed, total := CountCell(f, x0, x1, y0, y1);
    report := ReportCell(gy * GRID + gx, changed, total);
  }

  lemma CellNumber(f: Frames, height: nat, gx: nat, gy: nat)
    requires gx < GRID && gy < GRID
    ensures Regions(f, height, GRID * gy + gx + 1)
         == Regions(f, height, GRID * gy + gx)
            + RegionOf(GRID * gy + gx, CountCellAt(f, Changed, height, gx, gy), CountCellAt(f, All, height, gx, gy))
  {
    CellCoordinates(gx, gy);
  }

  lemma CellCoordinates(gx: nat, gy: nat)
    requires gx < GRID
    ensures (GRID * gy + gx) % GRID == gx && (GRID * gy + gx) / GRID == gy
  {
  }

  method GridDiff(before: seq<byte>, after: seq<byte>, width: nat, height: nat) returns (regions: seq<Region>)
    ensures regions == Regions(Frames(before, after, width), height, CELLS)
  {
    var f := Frames(before, after, width);
    regions := [];
    for gy := 0 to GRID
      invariant regions == Regions(f, height, GRID * gy)
    {
      for gx := 0 to GRID
        invariant regions == Regions(f, height, GRID * gy + gx)
      {
        var report := CellReport(f, height, gx, gy);
        CellNumber(f, height, gx, gy);
        regions := regions + report;
      }
    }
  }

  // ---------- The cells partition the screen ----------

  /** Every pixel lies in exactly one cell, also when a side is shorter than three. */
  lemma CellsPartition(width: nat, height: nat, row: nat, col: nat)
    requires row < height && col < width
    ensures exists gx: nat, gy: nat | gx < GRID && gy < GRID ::
              && CellStart(width, gx) <= col < CellEnd(width, gx)
              && CellStart(height, gy) <= row < CellEnd(height, gy)
              && (forall x: nat, y: nat | x < GRID && y < GRID
                    && CellStart(width, x) <= col < CellEnd(width, x)
                    && CellStart(height, y) <= row < CellEnd(height, y) :: x == gx && y == gy)
  {
    var gx, gy := CellAlong(width, col), CellAlong(height, row);
    CellAlongUnique(width, col);
    CellAlongUnique(height, row);
    assert CellStart(width, gx) <= col < CellEnd(width, gx);
    assert CellStart(height, gy) <= row < CellEnd(height, gy);
  }

  function CellAlong(n: nat, p: nat): (g: nat)
    ensures g < GRID
  {
    if p < n / GRID then 0 else if p < 2 * (n / GRID) then 1 else 2
  }

  lemma CellAlongUnique(n: nat, p: nat)
    requires p < n
    ensures forall g: nat | g < GRID :: CellStart(n, g) <= p < CellEnd(n, g) <==> g == CellAlong(n, p)
  {
    forall g: nat | g < GRID
      ensures CellStart(n, g) <= p < CellEnd(n, g) <==> g == CellAlong(n, p)
    {
      assert g == 0 || g == 1 || g == 2;
    }
  }

  lemma {:induction false} RowSplit(f: Frames, kind: Kind, row: nat, x0: nat, x1: nat, x2: nat)
    requires x0 <= x1 <= x2
    ensures CountRow(f, kind, row, x0, x2) == CountRow(f, kind, row, x0, x1) + CountRow(f, kind, row, x1, x2)
  {
    if x1 < x2 {
      RowSplit(f, kind, row, x0, x1, x2 - 1);
    }
  }

  lemma {:induction false} SplitColumns(f: Frames, kind: Kind, x0: nat, x1: nat, x2: nat, y0: nat, y1: nat)
    requires x0 <= x1 <= x2
    ensures CountRect(f, kind, x0, x2, y0, y1)
         == CountRect(f, kind, x0, x1, y0, y1) + CountRect(f, kind, x1, x2, y0, y1)
  {
    if y0 < y1 {
      RowSplit(f, kind, y1 - 1, x0, x1, x2);
      SplitColumns(f, kind, x0, x1, x2, y0, y1 - 1);
    }
  }

  lemma {:induction false} SplitRows(f: Frames, kind: Kind, x0: nat, x1: nat, y0: nat, y1: nat, y2: nat)
    requires y0 <= y1 <= y2
    ensures CountRect(f, kind, x0, x1, y0, y2)
         == CountRect(f, kind, x0, x1, y0, y1) + CountRect(f, kind, x0, x1, y1, y2)
  {
    if y1 < y2 {
      SplitRows(f, kind, x0, x1, y0, y1, y2 - 1);
    }
  }

  /** The counts of the first `n` cells, added up. */
  function SumCells(f: Frames, kind: Kind, height: nat, n: nat): nat
    requires n <= CELLS
  {
    if n == 0 then 0 else SumCells(f, kind, height, n - 1) + CellCount(f, kind, height, n - 1)
  }

  lemma BandSum(f: Frames, kind: Kind, height: nat, gy: nat)
    requires gy < GRID
    ensures SumCells(f, kind, height, GRID * gy + GRID)
         == SumCells(f, kind, height, GRID * gy)
            + CountRect(f, kind, 0, f.width, CellStart(height, gy), CellEnd(height, gy))
  {
    var w, y0, y1 := f.width / GRID, CellStart(height, gy), CellEnd(height, gy);
    SplitColumns(f, kind, 0, w, f.width, y0, y1);
    SplitColumns(f, kind, w, 2 * w, f.width, y0, y1);
    BandCells(f, kind, height, gy);
  }

  lemma SumCellsStep(f: Frames, kind: Kind, height: nat, gx: nat, gy: nat)
    requires gx < GRID && gy < GRID
    ensures SumCells(f, kind, height, GRID * gy + gx + 1)
         == SumCells(f, kind, height, GRID * gy + gx) + CountCellAt(f, kind, height, gx, gy)
  {
    CellCoordinates(gx, gy);
  }

  lemma BandCells(f: Frames, kind: Kind, height: nat, gy: nat)
    requires gy < GRID
    ensures SumCells(f, kind, height, GRID * gy + GRID)
         == SumCells(f, kind, height, GRID * gy)
            + CountCellAt(f, kind, height, 0, gy)
            + CountCellAt(f, kind, height, 1, gy)
            + CountCellAt(f, kind, height, 2, gy)
  {
    SumCellsStep(f, kind, height, 0, gy);
    SumCellsStep(f, kind, height, 1, gy);
    SumCellsStep(f, kind, height, 2, gy);
  }

  /** The three bands together are the screen. */
  lemma BandsMeet(f: Frames, kind: Kind, height: nat)
    ensures CountRect(f, kind, 0, f.width, 0, height)
         == CountRect(f, kind, 0, f.width, CellStart(height, 0), CellEnd(height, 0))
            + CountRect(f, kind, 0, f.width, CellStart(height, 1), CellEnd(height, 1))
            + CountRect(f, kind, 0, f.width, CellStart(height, 2), CellEnd(height, 2))
  {
    CellsMeet(height);
    ThreeBands(f, kind, CellEnd(height, 0), CellEnd(height, 1), height);
  }

  lemma ThreeBands(f: Frames, kind: Kind, y1: nat, y2: nat, y3: nat)
    requires y1 <= y2 <= y3
    ensures CountRect(f, kind, 0, f.width, 0, y3)
         == CountRect(f, kind, 0, f.width, 0, y1) + CountRect(f, kind, 0, f.width, y1, y2)
            + CountRect(f, kind, 0, f.width, y2, y3)
  {
    SplitRows(f, kind, 0, f.width, 0, y1, y3);
    SplitRows(f, kind, 0, f.width, y1, y2, y3);
  }

  lemma BandsAddUp(f: Frames, kind: Kind, height: nat)
    ensures SumCells(f, kind, height, CELLS)
         == CountRect(f, kind, 0, f.width, CellStart(height, 0), CellEnd(height, 0))
            + CountRect(f, kind, 0, f.width, CellStart(height, 1), CellEnd(height, 1))
            + CountRect(f, kind, 0, f.width, CellStart(height, 2), CellEnd(height, 2))
  {
    BandSum(f, kind, height, 0);
    BandSum(f, kind, height, 1);
    BandSum(f, kind, height, 2);
  }

  /** The nine cells together count every pixel of the screen once. */
  lemma CellsSumToScreen(f: Frames, kind: Kind, height: nat)
    ensures SumCells(f, kind, height, CELLS) == CountRect(f, kind, 0, f.width, 0, height)
  {
    BandsMeet(f, kind, height);
    BandsAddUp(f, kind, height);
  }

  // ---------- The grid refines the global count ----------

  /** Both buffers have the same whole number of pixels, at most width * height and few enough for u32 offsets;
      captures can be shorter than their dimensions promise. */
  ghost predicate SameSize(f: Frames, height: nat) {
    |f.before| == |f.after| <= 4 * (f.width * height) <= U32_SIZE && |f.before| % 4 == 0
  }

  lemma OffsetBelow(width: nat, height: nat, row: nat, col: nat)
    requires row < height && col <= width
    ensures row * width + col <= width * height
  {
    assert (height - row - 1) * width >= 0;
    assert width * height == row * width + width + (height - row - 1) * width;
  }

  /** The grid looks at the pixels in the buffer, at the places where the global loop finds them. */
  lemma IndexExact(f: Frames, height: nat, row: nat, col: nat)
    requires SameSize(f, height) && row < height && col < f.width
    ensures Index(f.width, row, col) == 4 * (row * f.width + col)
    ensures Index(f.width, row, col) + 3 < |f.before| <==> row * f.width + col < |f.before| / 4
  {
    OffsetBelow(f.width, height, row, col + 1);
    var i := (row * f.width + col) * 4;
    assert i < U32_SIZE;
  }

  /** The changed pixels among the first `n`, or among all if there are fewer. */
  function ChangedUpTo(f: Frames, n: nat): nat
    requires |f.before| == |f.after|
  {
    ChangedPixels(f.before, f.after, CELL_THRESHOLD, Min(n, |f.before| / 4))
  }

  /** Counting along a row is counting pixels in buffer order; `start` is the row's first pixel. */
  lemma {:induction false} RowMajor(f: Frames, height: nat, row: nat, start: nat, col: nat)
    requires SameSize(f, height) && row < height && col <= f.width
    requires start == row * f.width
    ensures Min(start + col, |f.before| / 4) == Min(start, |f.before| / 4) + CountRow(f, All, row, 0, col)
    ensures ChangedUpTo(f, start + col) == ChangedUpTo(f, start) + CountRow(f, Changed, row, 0, col)
  {
    if col > 0 {
      RowMajor(f, height, row, start, col - 1);
      IndexExact(f, height, row, col - 1);
    }
  }

  lemma {:induction false} RowsMajor(f: Frames, height: nat, row: nat)
    requires SameSize(f, height) && row <= height
    ensures CountRect(f, All, 0, f.width, 0, row) == Min(row * f.width, |f.before| / 4)
    ensures CountRect(f, Changed, 0, f.width, 0, row) == ChangedUpTo(f, row * f.width)
  {
    if row > 0 {
      var start := (row - 1) * f.width;
      assert start + f.width == row * f.width;
      RowsMajor(f, height, row - 1);
      RowMajor(f, height, row - 1, start, f.width);
    }
  }

  /** Cell totals sum to the number of pixels in the buffer, and cell changed counts to the global changed count
      at the same threshold. */
  lemma GridRefinesGlobal(f: Frames, height: nat)
    requires SameSize(f, height)
    ensures SumCells(f, All, height, CELLS) == |f.before| / 4
    ensures SumCells(f, Changed, height, CELLS)
         == ChangedPixels(f.before, f.after, CELL_THRESHOLD, |f.before| / 4)
  {
    CellsSumToScreen(f, All, height);
    CellsSumToScreen(f, Changed, height);
    RowsMajor(f, height, height);
    assert height * f.width == f.width * height;
  }

  lemma {:induction false} ChangedWithinAllRow(f: Frames, row: nat, x0: nat, x1: nat)
    ensures CountRow(f, Changed, row, x0, x1) <= CountRow(f, All, row, x0, x1)
  {
    if x0 < x1 {
      ChangedWithinAllRow(f, row, x0, x1 - 1);
    }
  }

  lemma {:induction false} ChangedWithinAll(f: Frames, x0: nat, x1: nat, y0: nat, y1: nat)
    ensures CountRect(f, Changed, x0, x1, y0, y1) <= CountRect(f, All, x0, x1, y0, y1)
  {
    if y0 < y1 {
      ChangedWithinAllRow(f, y1 - 1, x0, x1);
      ChangedWithinAll(f, x0, x1, y0, y1 - 1);
    }
  }

  /** If none of the first `n` cells is reported, at most one pixel in two hundred of them changed. */
  lemma {:induction false} NoRegionMeansFewChanges(f: Frames, height: nat, n: nat)
    requires n <= CELLS
    requires Regions(f, height, n) == []
    ensures 200 * SumCells(f, Changed, height, n) <= SumCells(f, All, height, n)
  {
    if n > 0 {
      var cell := n - 1;
      var changed, total := CellCount(f, Changed, height, cell), CellCount(f, All, height, cell);
      NoRegionMeansFewChanges(f, height, cell);
      ChangedWithinAll(f, CellStart(f.width, cell % GRID), CellEnd(f.width, cell % GRID),
                       CellStart(height, cell / GRID), CellEnd(height, cell / GRID));
      if total > 0 {
        AboveHalfPercent(changed, total);
      }
    }
  }

  /** Buffers of one size that are reported as changed show a changed region if and only if they are not empty:
      for empty buffers the global percentage is 100 by fiat and there is nothing to report. */
  lemma ChangedShowsRegion(f: Frames, height: nat)
    requires SameSize(f, height)
    requires GlobalPercentage(f.before, f.after, CELL_THRESHOLD) > 0.5
    ensures Regions(f, height, CELLS) != [] <==> |f.before| > 0
  {
    if |f.before| > 0 {
      GridRefinesGlobal(f, height);
      AboveHalfPercent(ChangedPixels(f.before, f.after, CELL_THRESHOLD, |f.before| / 4), |f.before| / 4);
      if Regions(f, height, CELLS) == [] {
        NoRegionMeansFewChanges(f, height, CELLS);
      }
    } else {
      NoHitsNoRegions(f, height, CELLS);
    }
  }

  /** Whatever buffers of `n` and `m` bytes contain, a screen reported as changed shows a region. */
  ghost predicate ChangeAlwaysShown(n: nat, m: nat, width: nat, height: nat)
    requires n % 4 == 0
  {
    forall before: seq<byte>, after: seq<byte> | |before| == n && |after| == m ::
      GlobalPercentage(before, after, CELL_THRESHOLD) > 0.5 ==>
        Regions(Frames(before, after, width), height, CELLS) != []
  }

  function Black(n: nat): (buffer: seq<byte>)
    ensures |buffer| == n && forall i | 0 <= i < n :: buffer[i] == 0
  {
    seq(n, _ => 0)
  }

  /** That is so exactly when the buffers have one size and are not empty.  The dimensions do not settle it: a
      capture whose source is short comes out short. */
  lemma ChangeAlwaysShownIff(n: nat, m: nat, width: nat, height: nat)
    requires n % 4 == 0 && m % 4 == 0
    requires n <= 4 * (width * height) <= U32_SIZE && m <= 4 * (width * height)
    ensures ChangeAlwaysShown(n, m, width, height) <==> n == m > 0
  {
    if n == m > 0 {
      forall before: seq<byte>, after: seq<byte> |
        |before| == n && |after| == m && GlobalPercentage(before, after, CELL_THRESHOLD) > 0.5
        ensures Regions(Frames(before, after, width), height, CELLS) != []
      {
        ChangedShowsRegion(Frames(before, after, width), height);
      }
    } else {
      var before, after := Black(n), Black(m);
      assert GlobalPercentage(before, after, CELL_THRESHOLD) == 100.0;
      NoHitsNoRegions(Frames(before, after, width), height, CELLS);
    }
  }

  ghost predicate NothingChanged(f: Frames) {
    forall row: nat, col: nat :: !Hits(f, Changed, row, col)
  }

  lemma {:induction false} NoHitsNoRegions(f: Frames, height: nat, n: nat)
    requires n <= CELLS && NothingChanged(f)
    ensures Regions(f, height, n) == []
  {
    if n > 0 {
      var cell := n - 1;
      NoHitsNoRegions(f, height, cell);
      NoHitsInRect(f, CellStart(f.width, cell % GRID), CellEnd(f.width, cell % GRID),
                   CellStart(height, cell / GRID), CellEnd(height, cell / GRID));
      RegionMeaning(cell, 0, CellCount(f, All, height, cell));
    }
  }

  lemma {:induction false} NoHitsInRect(f: Frames, x0: nat, x1: nat, y0: nat, y1: nat)
    requires NothingChanged(f)
    ensures CountRect(f, Changed, x0, x1, y0, y1) == 0
  {
    if y0 < y1 {
      NoHitsInRect(f, x0, x1, y0, y1 - 1);
      NoHitsInRow(f, y1 - 1, x0, x1);
    }
  }

  lemma {:induction false} NoHitsInRow(f: Frames, row: nat, x0: nat, x1: nat)
    requires NothingChanged(f)
    ensures CountRow(f, Changed, row, x0, x1) == 0
  {
    if x0 < x1 {
      NoHitsInRow(f, row, x0, x1 - 1);
    }
  }

  ghost predicate Reported(regions: seq<Region>, cell: nat) {
    exists i | 0 <= i < |regions| :: regions[i].area == cell
  }

  lemma ReportedConcat(a: seq<Region>, b: seq<Region>, cell: nat)
    ensures Reported(a + b, cell) <==> Reported(a, cell) || Reported(b, cell)
  {
    if Reported(a, cell) {
      var i :| 0 <= i < |a| && a[i].area == cell;
      assert (a + b)[i].area == cell;
    }
    if Reported(b, cell) {
      var i :| 0 <= i < |b| && b[i].area == cell;
      assert (a + b)[|a| + i].area == cell;
    }
  }

  lemma ReportedAlone(f: Frames, height: nat, area: nat, cell: nat)
    requires area < CELLS
    ensures var changed, total := CellCount(f, Changed, height, area), CellCount(f, All, height, area);
            Reported(RegionOf(area, changed, total), cell) <==> cell == area && 200 * changed > total
  {
    var changed, total := CellCount(f, Changed, height, area), CellCount(f, All, height, area);
    ChangedWithinAll(f, CellStart(f.width, area % GRID), CellEnd(f.width, area % GRID),
                     CellStart(height, area / GRID), CellEnd(height, area / GRID));
    if total > 0 {
      AboveHalfPercent(changed, total);
      if cell == area && 200 * changed > total {
        assert RegionOf(area, changed, total)[0].area == cell;
      }
    }
  }

  /** Exactly the cells with more than half a percent of changed pixels are reported. */
  lemma {:induction false} RegionsExact(f: Frames, height: nat, n: nat, cell: nat)
    requires n <= CELLS && cell < CELLS
    ensures Reported(Regions(f, height, n), cell)
       <==> cell < n && 200 * CellCount(f, Changed, height, cell) > CellCount(f, All, height, cell)
  {
    if n > 0 {
      var last := n - 1;
      var changed, total := CellCount(f, Changed, height, last), CellCount(f, All, height, last);
      RegionsExact(f, height, last, cell);
      ReportedAlone(f, height, last, cell);
      ReportedConcat(Regions(f, height, last), RegionOf(last, changed, total), cell);
    }
  }

  ghost predicate OrderedBelow(regions: seq<Region>, bound: nat) {
    && (forall i | 0 <= i < |regions| :: regions[i].area < bound)
    && (forall i, j | 0 <= i < j < |regions| :: regions[i].area < regions[j].area)
  }

  lemma OrderedAppend(regions: seq<Region>, area: nat, more: seq<Region>)
    requires OrderedBelow(regions, area)
    requires more == [] || (|more| == 1 && more[0].area == area)
    ensures OrderedBelow(regions + more, area + 1)
  {
  }

  /** They are reported in reading order, each once. */
  lemma {:induction false} RegionsOrdered(f: Frames, height: nat, n: nat)
    requires n <= CELLS
    ensures OrderedBelow(Regions(f, height, n), n)
  {
    if n > 0 {
      var last := n - 1;
      RegionsOrdered(f, height, last);
      OrderedAppend(Regions(f, height, last), last,
                    RegionOf(last, CellCount(f, Changed, height, last), CellCount(f, All, height, last)));
    }
  }

  // ---------- The tool ----------

  datatype Summary = Failed | Summary(percentage: real, changed: bool, regions: seq<Region>)

  /** The comparison branch of tool_screen_diff_summary: a stored baseline against a new capture. */
  method ScreenDiffSummary(
    before: seq<byte>, beforeW: nat, beforeH: nat, after: seq<byte>, afterW: nat, afterH: nat) returns (s: Summary)
    requires |before| % 4 == 0 && |after| % 4 == 0
    ensures s == Failed <==> beforeW != afterW || beforeH != afterH
    ensures s.Summary? ==> s.percentage == GlobalPercentage(before, after, CELL_THRESHOLD)
    ensures s.Summary? ==> s.regions == Regions(Frames(before, after, beforeW), beforeH, CELLS)
    ensures s.Summary? && |before| == |after| > 0 ==>
              s.changed == (200 * ChangedPixels(before, after, CELL_THRESHOLD, |before| / 4) > |before| / 4)
    ensures s.Summary? && |before| != |after| ==> s.changed
    ensures s.Summary? && s.changed && SameSize(Frames(before, after, beforeW), beforeH) ==>
              (s.regions != [] <==> |before| > 0)
  {
    if beforeW != afterW || beforeH != afterH {
      return Failed;
    }
    var pct := PixelDiffPercentage(before, after, 10);
    var regions := GridDiff(before, after, beforeW, beforeH);
    s := Summary(pct, pct > 0.5, regions);
    ghost var f := Frames(before, after, beforeW);
    if pct > 0.5 && SameSize(f, beforeH) {
      ChangedShowsRegion(f, beforeH);
    }
    if |before| == |after| > 0 {
      AboveHalfPercent(ChangedPixels(before, after, CELL_THRESHOLD, |before| / 4), |before| / 4);
    }
  }
}
