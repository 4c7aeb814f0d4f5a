/**
 * What `makeCollage` (Image/Image.cpp:421-663) builds from two images: the
 * two grids side by side or one above the other, the smaller one centred
 * between bands of black pixels.
 */
module CollageSpec {
  import opened Pixels
  import opened Grid
  import opened ImageSpec

  /** The part of a path after its last backslash, `substr(rfind('\\') + 1)` (Image/Image.cpp:426). */
  function BaseName(path: string): string
  {
    if path == [] || path[|path| - 1] == '\\' then []
    else BaseName(path[..|path| - 1]) + [path[|path| - 1]]
  }

  /**
   * The base name is the longest suffix without a backslash: a suffix of
   * the path, free of backslashes, and preceded by one unless it is the
   * whole path.
   */
  lemma {:induction false} BaseNameSuffix(path: string)
    ensures var name := BaseName(path);
      && '\\' !in name
      && |name| <= |path| && name == path[|path| - |name|..]
      && (|name| < |path| ==> path[|path| - |name| - 1] == '\\')
  {
    if path != [] && path[|path| - 1] != '\\' {
      var init := path[..|path| - 1];
      BaseNameSuffix(init);
      var name, last := BaseName(init), path[|path| - 1];
      assert BaseName(path) == name + [last];
      assert path == init + [last];
      assert path[|init| - |name|..] == init[|init| - |name|..] + [last];
      if |name| + 1 < |path| {
        assert path[|path| - |name| - 2] == init[|init| - |name| - 1];
      }
    }
  }

  /** The magic number of the collage, as a C string: `P` and the format digit of the first image (Image/Image.cpp:428-441). */
  function CollageMagic(ext: string): string
  {
    if ext == ".pbm" then "P1"
    else if ext == ".pgm" then "P2"
    else if ext == ".ppm" then "P3"
    else "P"
  }

  /** The padding pixel: 1 in a bitmap, otherwise zero under the first image's first ceiling (Image/Image.cpp:444-452). */
  function BlackPixel(s1: ImageState): PixelValue
    requires |s1.pixels| > 0
  {
    if s1.fileExtension == ".pbm" then PixelValue(1, 1, 1, 1) else PixelValue(s1.pixels[0].maxValue, 0, 0, 0)
  }

  function Blacks(b: PixelValue, n: nat): (row: seq<PixelValue>)
    ensures |row| == n && forall i :: 0 <= i < n ==> row[i] == b
  {
    seq(n, _ => b)
  }

  function Max(a: nat, b: nat): nat
  {
    if a >= b then a else b
  }

  /** The black rows (or columns) before an extent `n` centred in `total`: half the difference, rounded down. */
  function PadBefore(n: nat, total: nat): nat
    requires n <= total
  {
    (total - n) / 2
  }

  /**
   * The black rows (or columns) after it: half the difference, plus one
   * when the difference is odd (Image/Image.cpp:482-488, 606-612).
   */
  function PadAfter(n: nat, total: nat): (after: nat)
    requires n <= total
    ensures PadBefore(n, total) + n + after == total
    ensures after == PadBefore(n, total) || after == PadBefore(n, total) + 1
  {
    var d := total - n;
    d / 2 + (if d % 2 != 0 then 1 else 0)
  }

  /** The pixel vector holds `height` rows of `width` pixels. */
  predicate Shaped(s: ImageState)
  {
    |s.pixels| == s.height * s.width
  }

  /**
   * The part one image contributes to row `i` of a horizontal collage of
   * height `total`: a black band above and below it, its own row between
   * (Image/Image.cpp:491-520, 536-562).
   */
  function HorizontalPart(p: seq<PixelValue>, w: nat, h: nat, total: nat, b: PixelValue, i: nat): (part: seq<PixelValue>)
    requires |p| == h * w && h <= total && i < total
    ensures |part| == w
  {
    var top, bottom := PadBefore(h, total), PadAfter(h, total);
    if top > i || bottom >= total - i then Blacks(b, w)
    else
      MulMonotone(i - top + 1, h, w);
      Row(p, w, i - top)
  }

  /** Row `i` of an image of width `w` centred in a vertical collage of width `total` (Image/Image.cpp:594-606, 623-638). */
  function VerticalRow(p: seq<PixelValue>, w: nat, h: nat, total: nat, b: PixelValue, i: nat): (row: seq<PixelValue>)
    requires |p| == h * w && w <= total && i < h
    ensures |row| == total
  {
    MulMonotone(i + 1, h, w);
    Blacks(b, PadBefore(w, total)) + Row(p, w, i) + Blacks(b, PadAfter(w, total))
  }

  function HorizontalRows(s1: ImageState, s2: ImageState, b: PixelValue): (rows: seq<seq<PixelValue>>)
    requires Shaped(s1) && Shaped(s2)
    ensures |rows| == Max(s1.height, s2.height)
    ensures forall i :: 0 <= i < |rows| ==> |rows[i]| == s1.width + s2.width
  {
    var total := Max(s1.height, s2.height);
    seq(total, i requires 0 <= i < total =>
      HorizontalPart(s1.pixels, s1.width, s1.height, total, b, i) +
      HorizontalPart(s2.pixels, s2.width, s2.height, total, b, i))
  }

  /** Row `i` of a vertical collage: the first image's rows, then the second's. */
  function VerticalCollageRow(s1: ImageState, s2: ImageState, b: PixelValue, i: nat): (row: seq<PixelValue>)
    requires Shaped(s1) && Shaped(s2) && i < s1.height + s2.height
    ensures |row| == Max(s1.width, s2.width)
  {
    var total := Max(s1.width, s2.width);
    if i < s1.height then VerticalRow(s1.pixels, s1.width, s1.height, total, b, i)
    else VerticalRow(s2.pixels, s2.width, s2.height, total, b, i - s1.height)
  }

  function VerticalRows(s1: ImageState, s2: ImageState, b: PixelValue): (rows: seq<seq<PixelValue>>)
    requires Shaped(s1) && Shaped(s2)
    ensures |rows| == s1.height + s2.height
    ensures forall i :: 0 <= i < |rows| ==> |rows[i]| == Max(s1.width, s2.width)
  {
    seq(s1.height + s2.height, i requires 0 <= i < s1.height + s2.height => VerticalCollageRow(s1, s2, b, i))
  }

  /**
   * What `makeCollage` sets whatever the orientation (Image/Image.cpp:425-442):
   * the name joins both base names, extension and magic number follow the
   * first image; sizes start at 0 with no pixels.
   */
  function CollageHeader(s1: ImageState, s2: ImageState): ImageState
  {
    ImageState(CollageMagic(s1.fileExtension), BaseName(s1.filePath) + "_" + BaseName(s2.filePath),
               s1.fileExtension, 0, 0, [], 0)
  }

  /** The two images side by side: the widths add up as an `unsigned short`, the taller height is kept. */
  function HorizontalCollage(s1: ImageState, s2: ImageState): ImageState
    requires s1.Valid() && s2.Valid()
  {
    CollageHeader(s1, s2).(width := ToUShort(s1.width + s2.width), height := Max(s1.height, s2.height),
                           pixels := HorizontalCollagePixels(s1, s2))
  }

  /** The first image above the second: the heights add up as an `unsigned short`, the wider width is kept. */
  function VerticalCollage(s1: ImageState, s2: ImageState): ImageState
    requires s1.Valid() && s2.Valid()
  {
    CollageHeader(s1, s2).(width := Max(s1.width, s2.width), height := ToUShort(s1.height + s2.height),
                           pixels := VerticalCollagePixels(s1, s2))
  }

  /**
   * `makeCollage(orientation, img1, img2)`: an orientation other than
   * "horizontal" or "vertical" leaves only the header.
   */
  function Collage(orientation: string, s1: ImageState, s2: ImageState): (c: ImageState)
    requires s1.Valid() && s2.Valid()
    ensures orientation != "horizontal" && orientation != "vertical" ==> c.width == 0 && c.height == 0 && c.pixels == []
    ensures c.fileExtension == s1.fileExtension && c.commandsToSkip == 0
    ensures c.magicNumber == CollageMagic(s1.fileExtension)
  {
    if orientation == "horizontal" then HorizontalCollage(s1, s2)
    else if orientation == "vertical" then VerticalCollage(s1, s2)
    else CollageHeader(s1, s2)
  }

  /** The padding pixel is one `Pixel`'s validating constructor accepts. */
  lemma BlackPixelValid(s1: ImageState)
    requires s1.Valid()
    ensures (MulMonotone(1, s1.height, s1.width); BlackPixel(s1).Valid())
  {
    MulMonotone(1, s1.height, s1.width);
    assert s1.pixels[0].Valid();
  }

  lemma {:induction false} ConcatAllValid(rows: seq<seq<PixelValue>>)
    requires forall i :: 0 <= i < |rows| ==> AllValid(rows[i])
    ensures AllValid(Concat(rows))
  {
    if rows != [] {
      ConcatAllValid(rows[..|rows| - 1]);
    }
  }

  lemma RowValid(p: seq<PixelValue>, w: nat, r: nat)
    requires r * w + w <= |p| && AllValid(p)
    ensures AllValid(Row(p, w, r))
  {
    var row := Row(p, w, r);
    forall k | 0 <= k < w
      ensures row[k].Valid()
    {
      assert row[k] == p[r * w + k];
    }
  }

  lemma HorizontalPartValid(p: seq<PixelValue>, w: nat, h: nat, total: nat, b: PixelValue, i: nat)
    requires |p| == h * w && h <= total && i < total && AllValid(p) && b.Valid()
    ensures AllValid(HorizontalPart(p, w, h, total, b, i))
  {
    var top, bottom := PadBefore(h, total), PadAfter(h, total);
    if !(top > i || bottom >= total - i) {
      MulMonotone(i - top + 1, h, w);
      RowValid(p, w, i - top);
    }
  }

  lemma VerticalRowValid(p: seq<PixelValue>, w: nat, h: nat, total: nat, b: PixelValue, i: nat)
    requires |p| == h * w && w <= total && i < h && AllValid(p) && b.Valid()
    ensures AllValid(VerticalRow(p, w, h, total, b, i))
  {
    MulMonotone(i + 1, h, w);
    RowValid(p, w, i);
  }

  /** The pixels of a horizontal collage: height times the unwrapped width, all valid. */
  lemma HorizontalRowsValid(s1: ImageState, s2: ImageState, b: PixelValue)
    requires s1.Valid() && s2.Valid() && b.Valid()
    ensures var p := Concat(HorizontalRows(s1, s2, b));
      |p| == Max(s1.height, s2.height) * (s1.width + s2.width) && AllValid(p)
  {
    var rows := HorizontalRows(s1, s2, b);
    ConcatAt(rows, s1.width + s2.width);
    forall i | 0 <= i < |rows|
      ensures AllValid(rows[i])
    {
      HorizontalPartValid(s1.pixels, s1.width, s1.height, |rows|, b, i);
      HorizontalPartValid(s2.pixels, s2.width, s2.height, |rows|, b, i);
    }
    ConcatAllValid(rows);
  }

  /** The pixels of a vertical collage: the unwrapped height times the width, all valid. */
  lemma VerticalRowsValid(s1: ImageState, s2: ImageState, b: PixelValue)
    requires s1.Valid() && s2.Valid() && b.Valid()
    ensures var p := Concat(VerticalRows(s1, s2, b));
      |p| == (s1.height + s2.height) * Max(s1.width, s2.width) && AllValid(p)
  {
    var rows := VerticalRows(s1, s2, b);
    var total := Max(s1.width, s2.width);
    ConcatAt(rows, total);
    forall i | 0 <= i < |rows|
      ensures AllValid(rows[i])
    {
      if i < s1.height {
        VerticalRowValid(s1.pixels, s1.width, s1.height, total, b, i);
      } else {
        VerticalRowValid(s2.pixels, s2.width, s2.height, total, b, i - s1.height);
      }
    }
    ConcatAllValid(rows);
  }

  /** The pixels of a horizontal collage, row after row: height times the unwrapped width, all valid. */
  function HorizontalCollagePixels(s1: ImageState, s2: ImageState): (p: seq<PixelValue>)
    requires s1.Valid() && s2.Valid()
    ensures |p| == Max(s1.height, s2.height) * (s1.width + s2.width) && AllValid(p)
  {
    MulMonotone(1, s1.height, s1.width);
    BlackPixelValid(s1);
    HorizontalRowsValid(s1, s2, BlackPixel(s1));
    Concat(HorizontalRows(s1, s2, BlackPixel(s1)))
  }

  /** The pixels of a vertical collage, row after row: the unwrapped height times the width, all valid. */
  function VerticalCollagePixels(s1: ImageState, s2: ImageState): (p: seq<PixelValue>)
    requires s1.Valid() && s2.Valid()
    ensures |p| == (s1.height + s2.height) * Max(s1.width, s2.width) && AllValid(p)
  {
    MulMonotone(1, s1.height, s1.width);
    BlackPixelValid(s1);
    VerticalRowsValid(s1, s2, BlackPixel(s1));
    Concat(VerticalRows(s1, s2, BlackPixel(s1)))
  }

  /** A size that wrapped, times a positive `k`, falls short of the unwrapped product. */
  lemma WrappedProduct(n: nat, k: nat)
    requires UShortModulus <= n < 2 * UShortModulus && k >= 1
    ensures k * ToUShort(n) < k * n && ToUShort(n) * k < n * k
  {
    MulMonotone(1, k, UShortModulus);
    assert k * n == k * (n - UShortModulus) + k * UShortModulus;
    assert ToUShort(n) * k == k * ToUShort(n) && n * k == k * n;
  }

  /**
   * Side by side, the widths add up as an `unsigned short` and the taller
   * height is kept; there are always height times the unwrapped width
   * pixels, so the collage is valid exactly when the sum does not wrap.
   */
  lemma HorizontalCollageLaws(s1: ImageState, s2: ImageState)
    requires s1.Valid() && s2.Valid()
    ensures var c := HorizontalCollage(s1, s2);
      && c.height == Max(s1.height, s2.height)
      && c.width == ToUShort(s1.width + s2.width)
      && |c.pixels| == Max(s1.height, s2.height) * (s1.width + s2.width)
      && (c.Valid() <==> s1.width + s2.width < UShortModulus)
  {
    var c := HorizontalCollage(s1, s2);
    var n, m := s1.width + s2.width, Max(s1.height, s2.height);
    assert |c.pixels| == m * n && AllValid(c.pixels);
    if n >= UShortModulus {
      WrappedProduct(n, m);
      assert |c.pixels| != c.height * c.width;
    } else {
      assert c.height * c.width == m * n;
    }
  }

  /**
   * One above the other, the heights add up as an `unsigned short` and the
   * wider width is kept; the collage is valid exactly when the sum does not wrap.
   */
  lemma VerticalCollageLaws(s1: ImageState, s2: ImageState)
    requires s1.Valid() && s2.Valid()
    ensures var c := VerticalCollage(s1, s2);
      && c.width == Max(s1.width, s2.width)
      && c.height == ToUShort(s1.height + s2.height)
      && |c.pixels| == (s1.height + s2.height) * Max(s1.width, s2.width)
      && (c.Valid() <==> s1.height + s2.height < UShortModulus)
  {
    var c := VerticalCollage(s1, s2);
    var n, m := s1.height + s2.height, Max(s1.width, s2.width);
    assert |c.pixels| == n * m && AllValid(c.pixels);
    if n >= UShortModulus {
      WrappedProduct(n, m);
      assert |c.pixels| != c.height * c.width;
    } else {
      assert c.height * c.width == n * m;
    }
  }

  /** Whether row (or column) `i` of a band of `total` falls on the centred extent `n`. */
  predicate Covers(n: nat, total: nat, i: nat)
    requires n <= total
  {
    PadBefore(n, total) <= i < PadBefore(n, total) + n
  }

  /** Column `j` of one image's part of collage row `i`: its own pixel where it is centred, black above and below. */
  lemma HorizontalPartAt(p: seq<PixelValue>, w: nat, h: nat, total: nat, b: PixelValue, i: nat, j: nat)
    requires |p| == h * w && h <= total && i < total && j < w
    ensures HorizontalPart(p, w, h, total, b, i)[j]
      == if Covers(h, total, i) then At(p, h, w, i - PadBefore(h, total), j) else b
  {
    var top, bottom := PadBefore(h, total), PadAfter(h, total);
    var part := HorizontalPart(p, w, h, total, b, i);
    if Covers(h, total, i) {
      assert !(top > i || bottom >= total - i);
      MulMonotone(i - top + 1, h, w);
      assert part == Row(p, w, i - top);
      assert part[j] == p[(i - top) * w + j];
    } else {
      assert top > i || bottom >= total - i;
      assert part == Blacks(b, w);
    }
  }

  /** Column `j` of row `i` of an image centred in a vertical collage: its own pixel between the black side bands. */
  lemma VerticalRowAt(p: seq<PixelValue>, w: nat, h: nat, total: nat, b: PixelValue, i: nat, j: nat)
    requires |p| == h * w && w <= total && i < h && j < total
    ensures VerticalRow(p, w, h, total, b, i)[j]
      == if Covers(w, total, j) then At(p, h, w, i, j - PadBefore(w, total)) else b
  {
    var left := PadBefore(w, total);
    MulMonotone(i + 1, h, w);
    var row := VerticalRow(p, w, h, total, b, i);
    assert row == Blacks(b, left) + Row(p, w, i) + Blacks(b, PadAfter(w, total));
    if Covers(w, total, j) {
      assert row[j] == Row(p, w, i)[j - left];
    }
  }

  /**
   * Every cell of a horizontal collage: left of the seam the first image,
   * right of it the second, each centred vertically and black above and
   * below.
   */
  lemma HorizontalCells(s1: ImageState, s2: ImageState, i: nat, j: nat)
    requires s1.Valid() && s2.Valid()
    requires i < Max(s1.height, s2.height) && j < s1.width + s2.width
    ensures (MulMonotone(1, s1.height, s1.width);
      var H := Max(s1.height, s2.height);
      At(HorizontalCollagePixels(s1, s2), H, s1.width + s2.width, i, j)
      == if j < s1.width then
           (if Covers(s1.height, H, i) then At(s1.pixels, s1.height, s1.width, i - PadBefore(s1.height, H), j) else BlackPixel(s1))
         else
           (if Covers(s2.height, H, i) then At(s2.pixels, s2.height, s2.width, i - PadBefore(s2.height, H), j - s1.width) else BlackPixel(s1)))
  {
    MulMonotone(1, s1.height, s1.width);
    var H, b := Max(s1.height, s2.height), BlackPixel(s1);
    var rows := HorizontalRows(s1, s2, b);
    ConcatAt(rows, s1.width + s2.width);
    var part1 := HorizontalPart(s1.pixels, s1.width, s1.height, H, b, i);
    var part2 := HorizontalPart(s2.pixels, s2.width, s2.height, H, b, i);
    assert rows[i] == part1 + part2;
    if j < s1.width {
      HorizontalPartAt(s1.pixels, s1.width, s1.height, H, b, i, j);
      assert rows[i][j] == part1[j];
    } else {
      HorizontalPartAt(s2.pixels, s2.width, s2.height, H, b, i, j - s1.width);
      assert rows[i][j] == part2[j - s1.width];
    }
  }

  /**
   * Every cell of a vertical collage: above the seam the first image, below
   * it the second, each centred horizontally and black to its left and right.
   */
  lemma VerticalCells(s1: ImageState, s2: ImageState, i: nat, j: nat)
    requires s1.Valid() && s2.Valid()
    requires i < s1.height + s2.height && j < Max(s1.width, s2.width)
    ensures (MulMonotone(1, s1.height, s1.width);
      var W := Max(s1.width, s2.width);
      At(VerticalCollagePixels(s1, s2), s1.height + s2.height, W, i, j)
      == if i < s1.height then
           (if Covers(s1.width, W, j) then At(s1.pixels, s1.height, s1.width, i, j - PadBefore(s1.width, W)) else BlackPixel(s1))
         else
           (if Covers(s2.width, W, j) then At(s2.pixels, s2.height, s2.width, i - s1.height, j - PadBefore(s2.width, W)) else BlackPixel(s1)))
  {
    MulMonotone(1, s1.height, s1.width);
    var W, b := Max(s1.width, s2.width), BlackPixel(s1);
    var rows := VerticalRows(s1, s2, b);
    ConcatAt(rows, W);
    assert rows[i] == VerticalCollageRow(s1, s2, b, i);
    if i < s1.height {
      VerticalRowAt(s1.pixels, s1.width, s1.height, W, b, i, j);
    } else {
      VerticalRowAt(s2.pixels, s2.width, s2.height, W, b, i - s1.height, j);
    }
  }

  /** An image as wide as the collage fills its rows without side bands. */
  lemma FullWidthRows(p: seq<PixelValue>, w: nat, h: nat, b: PixelValue, rows: seq<seq<PixelValue>>)
    requires |p| == h * w && |rows| == h
    requires forall i :: 0 <= i < h ==> rows[i] == VerticalRow(p, w, h, w, b, i)
    ensures Concat(rows) == p
  {
    var full := Rows(p, w, h);
    forall i | 0 <= i < h
      ensures rows[i] == full[i]
    {
      MulMonotone(i + 1, h, w);
      assert PadBefore(w, w) == 0 && PadAfter(w, w) == 0;
      assert Blacks(b, 0) == [];
      assert rows[i] == Blacks(b, 0) + Row(p, w, i) + Blacks(b, 0);
      assert full[i] == Row(p, w, i);
    }
    assert rows == full;
    ConcatRows(p, w, h);
  }

  /** The rows of the wider (or equally wide) first image are its pixels unchanged. */
  lemma VerticalHead(s1: ImageState, s2: ImageState, b: PixelValue)
    requires Shaped(s1) && Shaped(s2) && s1.width >= s2.width
    ensures Concat(VerticalRows(s1, s2, b)[..s1.height]) == s1.pixels
  {
    var rows := VerticalRows(s1, s2, b);
    FullWidthRows(s1.pixels, s1.width, s1.height, b, rows[..s1.height]);
  }

  /** The rows of the wider (or equally wide) second image are its pixels unchanged. */
  lemma VerticalTail(s1: ImageState, s2: ImageState, b: PixelValue)
    requires Shaped(s1) && Shaped(s2) && s2.width >= s1.width
    ensures Concat(VerticalRows(s1, s2, b)[s1.height..]) == s2.pixels
  {
    var rows := VerticalRows(s1, s2, b);
    var tail := rows[s1.height..];
    forall i | 0 <= i < s2.height
      ensures tail[i] == VerticalRow(s2.pixels, s2.width, s2.height, s2.width, b, i)
    {
      assert tail[i] == VerticalCollageRow(s1, s2, b, s1.height + i);
    }
    FullWidthRows(s2.pixels, s2.width, s2.height, b, tail);
  }

  /** Two images of the same width stack into their pixels one after the other. */
  lemma VerticalEqualWidths(s1: ImageState, s2: ImageState)
    requires s1.Valid() && s2.Valid() && s1.width == s2.width
    ensures VerticalCollagePixels(s1, s2) == s1.pixels + s2.pixels
  {
    MulMonotone(1, s1.height, s1.width);
    var rows := VerticalRows(s1, s2, BlackPixel(s1));
    ConcatSplit(rows, s1.height);
    VerticalHead(s1, s2, BlackPixel(s1));
    VerticalTail(s1, s2, BlackPixel(s1));
  }
}
