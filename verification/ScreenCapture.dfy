/** From a captured BGRA frame with row padding to a cropped, tightly packed RGBA image. */
module ScreenCapture {
  import opened Basics
  import opened Bytes

  const USIZE_SIZE: nat := 0x1_0000_0000_0000_0000

  type i32 = x: int | -0x8000_0000 <= x < 0x8000_0000

  /** x, y, width, height as the caller gave them. */
  datatype Area = Whole | Area(x: i32, y: i32, width: i32, height: i32)

  datatype Capture = OutOfBounds | Captured(rgba: seq<byte>, width: nat, height: nat)

  // ---------- Conversion ----------

  /** The RGBA bytes of the BGRA pixel at offset `i`. */
  function Swapped(bgra: seq<byte>, i: nat): seq<byte>
    requires i + 3 < |bgra|
  {
    [bgra[i + 2], bgra[i + 1], bgra[i], bgra[i + 3]]
  }

  /** Pixels beyond the end of the source are left out. */
  function SwappedIfInside(bgra: seq<byte>, i: nat): (p: seq<byte>)
    ensures |p| == 4 <==> i + 3 < |bgra|
    ensures |p| <= 4
  {
    if i + 3 < |bgra| then Swapped(bgra, i) else []
  }

  /** How many bytes a row, or the first rows, are converted to. */
  function RowBytes(bgra: seq<byte>, stride: nat, row: nat, n: nat): nat {
    if n == 0 then 0
    else RowBytes(bgra, stride, row, n - 1) + if Offset(stride, row, n - 1) + 3 < |bgra| then 4 else 0
  }

  function RowsBytes(bgra: seq<byte>, stride: nat, w: nat, n: nat): nat {
    if n == 0 then 0 else RowsBytes(bgra, stride, w, n - 1) + RowBytes(bgra, stride, n - 1, w)
  }

  function RowPrefix(bgra: seq<byte>, stride: nat, row: nat, n: nat): (prefix: seq<byte>)
    ensures |prefix| == RowBytes(bgra, stride, row, n)
  {
    if n == 0 then []
    else RowPrefix(bgra, stride, row, n - 1) + SwappedIfInside(bgra, Offset(stride, row, n - 1))
  }

  function Rows(bgra: seq<byte>, stride: nat, w: nat, n: nat): (rows: seq<byte>)
    ensures |rows| == RowsBytes(bgra, stride, w, n)
  {
    if n == 0 then [] else Rows(bgra, stride, w, n - 1) + RowPrefix(bgra, stride, n - 1, w)
  }

  method PushPixel(rgba: seq<byte>, bgra: seq<byte>, i: nat) returns (more: seq<byte>)
    ensures more == rgba + SwappedIfInside(bgra, i)
  {
    more := rgba;
    if i + 3 < |bgra| {
      more := more + [bgra[i + 2]];
      more := more + [bgra[i + 1]];
      more := more + [bgra[i]];
      more := more + [bgra[i + 3]];
      PushFour(rgba, bgra[i + 2], bgra[i + 1], bgra[i], bgra[i + 3]);
    }
  }

  method SourceIndex(stride: nat, row: nat, col: nat) returns (i: nat)
    ensures i == Offset(stride, row, col)
  {
    RowStartValue(stride, row);
    i := stride * row + 4 * col;
  }

  method ConvertFrame(bgra: seq<byte>, stride: nat, w: nat, h: nat) returns (rgba: seq<byte>)
    ensures rgba == Rows(bgra, stride, w, h)
  {
    rgba := [];
    for row := 0 to h
      invariant rgba == Rows(bgra, stride, w, row)
    {
      ghost var above := rgba;
      for col := 0 to w
        invariant rgba == above + RowPrefix(bgra, stride, row, col)
      {
        var i := SourceIndex(stride, row, col);
        Regroup(above, RowPrefix(bgra, stride, row, col), SwappedIfInside(bgra, i));
        rgba := PushPixel(rgba, bgra, i);
      }
    }
  }

  lemma PushFour(s: seq<byte>, a: byte, b: byte, c: byte, d: byte)
    ensures s + [a] + [b] + [c] + [d] == s + [a, b, c, d]
  {
  }

  /** Every pixel of the row lies inside the source buffer; the last one settles it. */
  ghost predicate RowCovered(bgra: seq<byte>, stride: nat, row: nat, w: nat) {
    w == 0 || Offset(stride, row, w - 1) + 3 < |bgra|
  }

  lemma RowCoveredMeans(bgra: seq<byte>, stride: nat, row: nat, w: nat)
    ensures RowCovered(bgra, stride, row, w) <==> forall col: nat | col < w :: Offset(stride, row, col) + 3 < |bgra|
  {
    if w > 0 && forall col: nat | col < w :: Offset(stride, row, col) + 3 < |bgra| {
      assert Offset(stride, row, w - 1) + 3 < |bgra|;
    }
  }

  /** Every pixel of the w x h frame does. */
  ghost predicate Covers(bgra: seq<byte>, stride: nat, w: nat, h: nat) {
    h == 0 || (Covers(bgra, stride, w, h - 1) && RowCovered(bgra, stride, h - 1, w))
  }

  lemma {:induction false} CoversRow(bgra: seq<byte>, stride: nat, w: nat, h: nat, row: nat)
    requires Covers(bgra, stride, w, h) && row < h
    ensures RowCovered(bgra, stride, row, w)
  {
    if row < h - 1 {
      CoversRow(bgra, stride, w, h - 1, row);
    }
  }

  /** It can be read off the last pixel. */
  lemma {:induction false} CoversByLastPixel(bgra: seq<byte>, stride: nat, w: nat, h: nat)
    requires w > 0 && h > 0
    ensures Covers(bgra, stride, w, h) <==> Offset(stride, h - 1, w - 1) + 3 < |bgra|
  {
    if h > 1 {
      CoversByLastPixel(bgra, stride, w, h - 1);
    }
  }

  lemma {:induction false} RowUnits(bgra: seq<byte>, stride: nat, row: nat, n: nat)
    ensures RowBytes(bgra, stride, row, n) <= RowStart(4, n)
    ensures RowBytes(bgra, stride, row, n) == RowStart(4, n) <==> RowCovered(bgra, stride, row, n)
  {
    if n > 0 {
      RowUnits(bgra, stride, row, n - 1);
    }
  }

  lemma RowLength(bgra: seq<byte>, stride: nat, row: nat, n: nat)
    ensures |RowPrefix(bgra, stride, row, n)| <= 4 * n
    ensures |RowPrefix(bgra, stride, row, n)| == 4 * n <==> RowCovered(bgra, stride, row, n)
  {
    RowUnits(bgra, stride, row, n);
    RowStartValue(4, n);
  }

  lemma {:induction false} RowsUnits(bgra: seq<byte>, stride: nat, w: nat, n: nat)
    ensures RowsBytes(bgra, stride, w, n) <= RowStart(RowStart(4, w), n)
    ensures RowsBytes(bgra, stride, w, n) == RowStart(RowStart(4, w), n) <==> Covers(bgra, stride, w, n)
  {
    if n > 0 {
      RowsUnits(bgra, stride, w, n - 1);
      RowUnits(bgra, stride, n - 1, w);
    }
  }

  /** The converted image has its full size exactly when the source covers every pixel. */
  lemma RowsLength(bgra: seq<byte>, stride: nat, w: nat, n: nat)
    ensures |Rows(bgra, stride, w, n)| <= RowStart(4 * w, n)
    ensures |Rows(bgra, stride, w, n)| == RowStart(4 * w, n) <==> Covers(bgra, stride, w, n)
  {
    RowsUnits(bgra, stride, w, n);
    RowStartValue(4, w);
  }

  /** The four bytes of the pixel in row `row`, column `col` of a packed image. */
  function PixelAt(image: seq<byte>, width: nat, row: nat, col: nat): seq<byte>
    requires Offset(4 * width, row, col) + 4 <= |image|
  {
    image[Offset(4 * width, row, col)..][..4]
  }

  /** A row prefix up to column n is the one up to n - 1 and one pixel. */
  lemma RowPrefixSplit(bgra: seq<byte>, stride: nat, row: nat, n: nat)
    requires n > 0 && RowCovered(bgra, stride, row, n)
    ensures RowCovered(bgra, stride, row, n - 1) && Offset(stride, row, n - 1) + 3 < |bgra|
    ensures |RowPrefix(bgra, stride, row, n - 1)| == 4 * (n - 1)
    ensures RowPrefix(bgra, stride, row, n)
         == RowPrefix(bgra, stride, row, n - 1) + Swapped(bgra, Offset(stride, row, n - 1))
  {
    RowLength(bgra, stride, row, n - 1);
  }

  lemma {:induction false} RowPixel(bgra: seq<byte>, stride: nat, row: nat, n: nat, col: nat)
    requires col < n
    requires RowCovered(bgra, stride, row, n)
    ensures |RowPrefix(bgra, stride, row, n)| == 4 * n
    ensures RowPrefix(bgra, stride, row, n)[4 * col..][..4] == Swapped(bgra, Offset(stride, row, col))
  {
    RowPrefixSplit(bgra, stride, row, n);
    var before, last := RowPrefix(bgra, stride, row, n - 1), Swapped(bgra, Offset(stride, row, n - 1));
    if col < n - 1 {
      RowPixel(bgra, stride, row, n - 1, col);
      SliceLeft(before, last, 4 * col);
    } else {
      SliceRight(before, last, 4 * col, 0);
    }
  }

  /** A four-byte slice of a concatenation lies in one of its parts. */
  lemma SliceLeft(a: seq<byte>, b: seq<byte>, i: nat)
    requires i + 4 <= |a|
    ensures (a + b)[i..][..4] == a[i..][..4]
  {
  }

  lemma SliceRight(a: seq<byte>, b: seq<byte>, i: nat, j: nat)
    requires i == |a| + j && j + 4 <= |b|
    ensures (a + b)[i..][..4] == b[j..][..4]
  {
  }

  /** Channel swap and removal of the row padding: each pixel of the result is the swapped source pixel. */
  lemma {:induction false} FramePixel(bgra: seq<byte>, stride: nat, w: nat, n: nat, row: nat, col: nat)
    requires Covers(bgra, stride, w, n) && row < n && col < w
    ensures Offset(stride, row, col) + 3 < |bgra|
    ensures Offset(4 * w, row, col) + 4 <= |Rows(bgra, stride, w, n)|
    ensures PixelAt(Rows(bgra, stride, w, n), w, row, col) == Swapped(bgra, Offset(stride, row, col))
  {
    CoversRow(bgra, stride, w, n, row);
    if row < n - 1 {
      FramePixel(bgra, stride, w, n - 1, row, col);
      SliceLeft(Rows(bgra, stride, w, n - 1), RowPrefix(bgra, stride, n - 1, w), Offset(4 * w, row, col));
    } else {
      FrameLastRow(bgra, stride, w, row, col);
    }
  }

  lemma FrameLastRow(bgra: seq<byte>, stride: nat, w: nat, row: nat, col: nat)
    requires Covers(bgra, stride, w, row) && RowCovered(bgra, stride, row, w) && col < w
    ensures Offset(stride, row, col) + 3 < |bgra|
    ensures Offset(4 * w, row, col) + 4 <= |Rows(bgra, stride, w, row + 1)|
    ensures PixelAt(Rows(bgra, stride, w, row + 1), w, row, col) == Swapped(bgra, Offset(stride, row, col))
  {
    RowsLength(bgra, stride, w, row);
    RowPixel(bgra, stride, row, w, col);
    SliceRight(Rows(bgra, stride, w, row), RowPrefix(bgra, stride, row, w), Offset(4 * w, row, col), 4 * col);
  }

  // ---------- Cropping ----------

  /** `x as usize`: negative values wrap around. */
  function AsUsize(x: i32): nat {
    if x < 0 then x + USIZE_SIZE else x
  }

  function Clamp(x: i32): nat {
    if x < 0 then 0 else x
  }

  function SaturatingSub(a: nat, b: nat): nat {
    if a < b then 0 else a - b
  }

  /** `count` rows of `rw` pixels from (rx, ry); a row past the end of the image is left out. */
  function CropRows(full: seq<byte>, w: nat, rx: nat, ry: nat, rw: nat, count: nat): seq<byte> {
    if count == 0 then []
    else
      var start := Offset(4 * w, ry + count - 1, rx);
      CropRows(full, w, rx, ry, rw, count - 1)
      + if start + rw * 4 <= |full| then full[start..start + rw * 4] else []
  }

  function CaptureOf(bgra: seq<byte>, stride: nat, w: nat, h: nat, area: Area): Capture {
    match area
    case Whole => Captured(Rows(bgra, stride, w, h), w, h)
    case Area(x, y, aw, ah) =>
      var rw, rh := Min(AsUsize(aw), SaturatingSub(w, Clamp(x))), Min(AsUsize(ah), SaturatingSub(h, Clamp(y)));
      if rw == 0 || rh == 0 then OutOfBounds
      else Captured(CropRows(Rows(bgra, stride, w, h), w, Clamp(x), Clamp(y), rw, rh), rw, rh)
  }

  method PackedIndex(w: nat, row: nat, col: nat) returns (i: nat)
    ensures i == Offset(4 * w, row, col)
  {
    PackedOffset(w, row, col);
    i := (row * w + col) * 4;
  }

  method CropFrame(full: seq<byte>, w: nat, rx: nat, ry: nat, rw: nat, rh: nat) returns (cropped: seq<byte>)
    ensures cropped == CropRows(full, w, rx, ry, rw, rh)
  {
    cropped := [];
    for row := ry to ry + rh
      invariant cropped == CropRows(full, w, rx, ry, rw, row - ry)
    {
      var start := PackedIndex(w, row, rx);
      var end := start + rw * 4;
      assert row == ry + (row + 1 - ry) - 1;
      if end <= |full| {
        cropped := cropped + full[start..end];
      }
    }
  }

  method CaptureRgba(bgra: seq<byte>, stride: nat, w: nat, h: nat, area: Area) returns (c: Capture)
    ensures c == CaptureOf(bgra, stride, w, h, area)
  {
    var full := ConvertFrame(bgra, stride, w, h);
    match area
    case Whole => return Captured(full, w, h);
    case Area(x, y, aw, ah) =>
      var rx, ry := Clamp(x), Clamp(y);
      var rw, rh := Min(AsUsize(aw), SaturatingSub(w, rx)), Min(AsUsize(ah), SaturatingSub(h, ry));
      if rw == 0 || rh == 0 {
        return OutOfBounds;
      }
      var cropped := CropFrame(full, w, rx, ry, rw, rh);
      return Captured(cropped, rw, rh);
  }

  /** Pixel (r, c) of `image` is pixel (row, col) of `full`. */
  ghost predicate Copies(image: seq<byte>, rw: nat, r: nat, c: nat, full: seq<byte>, w: nat, row: nat, col: nat) {
    && Offset(4 * rw, r, c) + 4 <= |image|
    && Offset(4 * w, row, col) + 4 <= |full|
    && PixelAt(image, rw, r, c) == PixelAt(full, w, row, col)
  }

  lemma {:induction false} CropLength(full: seq<byte>, w: nat, h: nat, rx: nat, ry: nat, rw: nat, count: nat)
    requires |full| == RowStart(4 * w, h) && rx + rw <= w && ry + count <= h
    ensures |CropRows(full, w, rx, ry, rw, count)| == RowStart(4 * rw, count)
  {
    if count > 0 {
      var row := ry + count - 1;
      CropLength(full, w, h, rx, ry, rw, count - 1);
      RowFits(4 * w, h, row);
    }
  }

  lemma {:induction false} CropPixel(
    full: seq<byte>, w: nat, h: nat, rx: nat, ry: nat, rw: nat, count: nat, r: nat, c: nat)
    requires |full| == RowStart(4 * w, h) && rx + rw <= w && ry + count <= h
    requires r < count && c < rw
    ensures Copies(CropRows(full, w, rx, ry, rw, count), rw, r, c, full, w, ry + r, rx + c)
  {
    var last := count - 1;
    var start := Offset(4 * w, ry + last, rx);
    CropLength(full, w, h, rx, ry, rw, last);
    RowFits(4 * w, h, ry + last);
    var above, line := CropRows(full, w, rx, ry, rw, last), full[start..start + rw * 4];
    assert CropRows(full, w, rx, ry, rw, count) == above + line;
    if r < last {
      CropPixel(full, w, h, rx, ry, rw, last, r, c);
      SliceLeft(above, line, Offset(4 * rw, r, c));
    } else {
      CropLastRow(full, w, h, rx, ry + last, rw, last, above, line, c);
    }
  }

  lemma CropLastRow(
    full: seq<byte>, w: nat, h: nat, rx: nat, row: nat, rw: nat, last: nat, above: seq<byte>, line: seq<byte>, c: nat)
    requires |full| == RowStart(4 * w, h) && rx + rw <= w && row < h && c < rw
    requires |above| == RowStart(4 * rw, last)
    requires var start := Offset(4 * w, row, rx); start + rw * 4 <= |full| && line == full[start..start + rw * 4]
    ensures Copies(above + line, rw, last, c, full, w, row, rx + c)
  {
    var start := Offset(4 * w, row, rx);
    RowFits(4 * w, h, row);
    SliceRight(above, line, Offset(4 * rw, last, c), 4 * c);
    SliceOfSlice(full, start, rw * 4, 4 * c);
  }

  lemma SliceOfSlice(a: seq<byte>, start: nat, length: nat, i: nat)
    requires start + length <= |a| && i + 4 <= length
    ensures a[start..start + length][i..][..4] == a[start + i..][..4]
  {
  }

  // ---------- What a capture returns ----------

  /** The visible part of a requested extent: a negative origin is moved to 0 without shortening the
      extent, a negative extent means everything to the edge. */
  function Visible(origin: i32, extent: i32, limit: nat): nat {
    var room := SaturatingSub(limit, Clamp(origin));
    if extent < 0 then room else Min(extent, room)
  }

  lemma VisibleIsCast(origin: i32, extent: i32, limit: nat)
    requires limit <= 0x8000_0000_0000_0000
    ensures Visible(origin, extent, limit) == Min(AsUsize(extent), SaturatingSub(limit, Clamp(origin)))
    ensures Visible(origin, extent, limit) > 0 ==> Clamp(origin) + Visible(origin, extent, limit) <= limit
  {
  }

  lemma CaptureVisible(bgra: seq<byte>, stride: nat, w: nat, h: nat, area: Area)
    requires area.Area?
    requires w <= 0x8000_0000_0000_0000 && h <= 0x8000_0000_0000_0000
    ensures var x, y := Clamp(area.x), Clamp(area.y);
            var rw, rh := Visible(area.x, area.width, w), Visible(area.y, area.height, h);
            && (rw > 0 ==> x + rw <= w)
            && (rh > 0 ==> y + rh <= h)
            && CaptureOf(bgra, stride, w, h, area)
               == if rw == 0 || rh == 0 then OutOfBounds
                  else Captured(CropRows(Rows(bgra, stride, w, h), w, x, y, rw, rh), rw, rh)
  {
    VisibleIsCast(area.x, area.width, w);
    VisibleIsCast(area.y, area.height, h);
  }

  /** Pixel (r, c) of `image` is the channel-swapped source pixel at offset `i`. */
  ghost predicate Shows(image: seq<byte>, rw: nat, r: nat, c: nat, bgra: seq<byte>, i: nat) {
    && Offset(4 * rw, r, c) + 4 <= |image|
    && i + 3 < |bgra|
    && PixelAt(image, rw, r, c) == Swapped(bgra, i)
  }

  /** For every requested area, negative or oversized ones included: the capture fails exactly when
      nothing of the area is visible, and otherwise returns a full image of the visible part. */
  lemma CropSize(bgra: seq<byte>, stride: nat, w: nat, h: nat, area: Area)
    requires area.Area? && Covers(bgra, stride, w, h)
    requires w <= 0x8000_0000_0000_0000 && h <= 0x8000_0000_0000_0000
    ensures var capture := CaptureOf(bgra, stride, w, h, area);
            var rw, rh := Visible(area.x, area.width, w), Visible(area.y, area.height, h);
            if rw == 0 || rh == 0 then capture == OutOfBounds
            else
              && capture.Captured? && capture.width == rw && capture.height == rh
              && Clamp(area.x) + rw <= w && Clamp(area.y) + rh <= h
              && |capture.rgba| == 4 * (rh * rw)
  {
    CaptureVisible(bgra, stride, w, h, area);
    var rw, rh := Visible(area.x, area.width, w), Visible(area.y, area.height, h);
    if rw > 0 && rh > 0 {
      RowsLength(bgra, stride, w, h);
      CropLength(Rows(bgra, stride, w, h), w, h, Clamp(area.x), Clamp(area.y), rw, rh);
      PackedOffset(rw, rh, 0);
    }
  }

  /** ... whose pixel (r, c) is the channel-swapped source pixel (y + r, x + c). */
  lemma CropCorrect(bgra: seq<byte>, stride: nat, w: nat, h: nat, area: Area, r: nat, c: nat)
    returns (image: seq<byte>)
    requires area.Area? && Covers(bgra, stride, w, h)
    requires w <= 0x8000_0000_0000_0000 && h <= 0x8000_0000_0000_0000
    requires c < Visible(area.x, area.width, w) && r < Visible(area.y, area.height, h)
    ensures CaptureOf(bgra, stride, w, h, area)
         == Captured(image, Visible(area.x, area.width, w), Visible(area.y, area.height, h))
    ensures Shows(image, Visible(area.x, area.width, w), r, c, bgra,
                  Offset(stride, Clamp(area.y) + r, Clamp(area.x) + c))
  {
    var rw, rh := Visible(area.x, area.width, w), Visible(area.y, area.height, h);
    CaptureVisible(bgra, stride, w, h, area);
    image := CropShows(bgra, stride, w, h, Clamp(area.x), Clamp(area.y), rw, rh, r, c);
  }

  lemma CropShows(
    bgra: seq<byte>, stride: nat, w: nat, h: nat, x: nat, y: nat, rw: nat, rh: nat, r: nat, c: nat)
    returns (image: seq<byte>)
    requires Covers(bgra, stride, w, h) && x + rw <= w && y + rh <= h && r < rh && c < rw
    ensures image == CropRows(Rows(bgra, stride, w, h), w, x, y, rw, rh)
    ensures Shows(image, rw, r, c, bgra, Offset(stride, y + r, x + c))
  {
    var full := Rows(bgra, stride, w, h);
    RowsLength(bgra, stride, w, h);
    CropPixel(full, w, h, x, y, rw, rh, r, c);
    image := CropRows(full, w, x, y, rw, rh);
    ShownByCopy(bgra, stride, w, h, image, rw, r, c, y + r, x + c);
  }

  lemma ShownByCopy(
    bgra: seq<byte>, stride: nat, w: nat, h: nat, image: seq<byte>, rw: nat, r: nat, c: nat, row: nat, col: nat)
    requires Covers(bgra, stride, w, h) && row < h && col < w
    requires Copies(image, rw, r, c, Rows(bgra, stride, w, h), w, row, col)
    ensures Shows(image, rw, r, c, bgra, Offset(stride, row, col))
  {
    FramePixel(bgra, stride, w, h, row, col);
  }

  /** The same byte by byte, for an area given as it came: red and blue change places, and row and column count from
      the area's origin, or from 0 if that is negative. */
  lemma CapturedPixel(
    bgra: seq<byte>, stride: nat, w: nat, h: nat, area: Area, x: nat, y: nat, rw: nat, rh: nat, r: nat, c: nat)
    returns (image: seq<byte>)
    requires area.Area? && Covers(bgra, stride, w, h)
    requires w <= 0x8000_0000_0000_0000 && h <= 0x8000_0000_0000_0000
    requires x == (if area.x < 0 then 0 else area.x) && y == (if area.y < 0 then 0 else area.y)
    requires x < w && y < h
    requires rw == if area.width < 0 || area.width > w - x then w - x else area.width
    requires rh == if area.height < 0 || area.height > h - y then h - y else area.height
    requires r < rh && c < rw
    ensures CaptureOf(bgra, stride, w, h, area) == Captured(image, rw, rh) && |image| == 4 * (rh * rw)
    ensures SwapsBytes(image, (r * rw + c) * 4, bgra, (y + r) * stride + 4 * (x + c))
  {
    VisibleIs(area.x, area.width, w, x, rw);
    VisibleIs(area.y, area.height, h, y, rh);
    image := CroppedPixel(bgra, stride, w, h, area, x, y, rw, rh, r, c);
  }

  lemma VisibleIs(origin: i32, extent: i32, limit: nat, start: nat, length: nat)
    requires start == (if origin < 0 then 0 else origin) && start < limit
    requires length == if extent < 0 || extent > limit - start then limit - start else extent
    ensures start == Clamp(origin) && length == Visible(origin, extent, limit)
  {
  }

  lemma CroppedPixel(
    bgra: seq<byte>, stride: nat, w: nat, h: nat, area: Area, x: nat, y: nat, rw: nat, rh: nat, r: nat, c: nat)
    returns (image: seq<byte>)
    requires area.Area? && Covers(bgra, stride, w, h)
    requires w <= 0x8000_0000_0000_0000 && h <= 0x8000_0000_0000_0000
    requires x == Clamp(area.x) && rw == Visible(area.x, area.width, w) && c < rw
    requires y == Clamp(area.y) && rh == Visible(area.y, area.height, h) && r < rh
    ensures CaptureOf(bgra, stride, w, h, area) == Captured(image, rw, rh) && |image| == 4 * (rh * rw)
    ensures SwapsBytes(image, (r * rw + c) * 4, bgra, (y + r) * stride + 4 * (x + c))
  {
    image := CropCorrect(bgra, stride, w, h, area, r, c);
    SwappedAt(image, rw, r, c, bgra, stride, y + r, x + c);
    CropSize(bgra, stride, w, h, area);
  }

  /** The four bytes at `to` are those at `from` with red and blue changed places. */
  ghost predicate SwapsBytes(image: seq<byte>, to: int, bgra: seq<byte>, from: int) {
    && 0 <= to && to + 3 < |image|
    && 0 <= from && from + 3 < |bgra|
    && image[to] == bgra[from + 2]
    && image[to + 1] == bgra[from + 1]
    && image[to + 2] == bgra[from]
    && image[to + 3] == bgra[from + 3]
  }

  lemma SwappedAt(
    image: seq<byte>, rw: nat, r: nat, c: nat, bgra: seq<byte>, stride: nat, row: nat, col: nat)
    requires Shows(image, rw, r, c, bgra, Offset(stride, row, col))
    ensures SwapsBytes(image, (r * rw + c) * 4, bgra, row * stride + 4 * col)
  {
    PackedOffset(rw, r, c);
    RowStartValue(stride, row);
    ShownBytes(image, rw, r, c, bgra, Offset(stride, row, col));
  }

  lemma ShownBytes(image: seq<byte>, rw: nat, r: nat, c: nat, bgra: seq<byte>, i: nat)
    requires Shows(image, rw, r, c, bgra, i)
    ensures SwapsBytes(image, Offset(4 * rw, r, c), bgra, i)
  {
    var to := Offset(4 * rw, r, c);
    var p := image[to..][..4];
    assert p == [bgra[i + 2], bgra[i + 1], bgra[i], bgra[i + 3]];
    assert p[0] == image[to] && p[1] == image[to + 1] && p[2] == image[to + 2] && p[3] == image[to + 3];
  }

  /** An area of which nothing is on the screen is refused, and no other. */
  lemma OutOfBoundsIff(bgra: seq<byte>, stride: nat, w: nat, h: nat, area: Area)
    requires area.Area? && w <= 0x8000_0000_0000_0000 && h <= 0x8000_0000_0000_0000
    ensures CaptureOf(bgra, stride, w, h, area) == OutOfBounds
       <==> || w == 0 || h == 0 || area.x >= w || area.y >= h || area.width == 0 || area.height == 0
  {
    CaptureVisible(bgra, stride, w, h, area);
  }

  /** Without an area the whole screen is returned, channels swapped and padding removed. */
  lemma WholePixel(bgra: seq<byte>, stride: nat, w: nat, h: nat, r: nat, c: nat) returns (image: seq<byte>)
    requires Covers(bgra, stride, w, h) && r < h && c < w
    ensures CaptureOf(bgra, stride, w, h, Whole) == Captured(image, w, h) && |image| == 4 * (h * w)
    ensures SwapsBytes(image, (r * w + c) * 4, bgra, r * stride + 4 * c)
  {
    image := Rows(bgra, stride, w, h);
    RowsLength(bgra, stride, w, h);
    PackedOffset(w, h, 0);
    FramePixel(bgra, stride, w, h, r, c);
    SwappedAt(image, w, r, c, bgra, stride, r, c);
  }

  /** The buffer has the size its dimensions promise if and only if the source holds its last pixel. */
  lemma FullSizeIffCovered(bgra: seq<byte>, stride: nat, w: nat, h: nat)
    requires w > 0 && h > 0
    ensures |Rows(bgra, stride, w, h)| == 4 * (h * w) <==> (h - 1) * stride + 4 * (w - 1) + 3 < |bgra|
  {
    RowsLength(bgra, stride, w, h);
    PackedOffset(w, h, 0);
    RowStartValue(stride, h - 1);
    CoversByLastPixel(bgra, stride, w, h);
  }
}
