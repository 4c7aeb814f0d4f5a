/**
 * What `loadImage` (Image/Image.cpp:41-113) builds from the lines of a
 * Netpbm file, and the lines `saveImage` (Image/Image.cpp:117-160) writes
 * for an image.  Lines are given already split and without their
 * terminators; comment lines are not part of this model.
 */
module Loading {
  import opened Pixels
  import opened Grid
  import opened Codec
  import opened ImageSpec

  /** The extensions `loadImage` accepts (Image/Image.cpp:54-58). */
  predicate IsNetpbmExtension(ext: string)
  {
    ext == ".pbm" || ext == ".pgm" || ext == ".ppm"
  }

  /** The path without its last four characters (Image/Image.cpp:51-52). */
  function StemOf(path: string): (stem: string)
    requires |path| >= 4
    ensures |stem| == |path| - 4 && stem <= path
  {
    path[..|path| - 4]
  }

  /** The last four characters of the path (Image/Image.cpp:53). */
  function ExtensionOf(path: string): (ext: string)
    requires |path| >= 4
    ensures |ext| == 4 && StemOf(path) + ext == path
  {
    path[|path| - 4..]
  }

  /** The ceiling pixels are loaded with: 1 for a bitmap, the ceiling line otherwise (Image/Image.cpp:90-110). */
  function Ceiling(ext: string, maxLine: string): nat
  {
    if ext == ".pbm" then 1 else ParseMaxValue(maxLine)
  }

  /** `loadPBMAndPGM` (Image/Image.cpp:165-191): the decoded rows, one after the other. */
  function GrayRows(rows: seq<string>, maxValue: nat): (pixels: seq<PixelValue>)
    requires forall i :: 0 <= i < |rows| ==> GrayRowFits(rows[i], maxValue)
    ensures forall k :: 0 <= k < |pixels| ==> IsGrayPixel(pixels[k], maxValue)
  {
    if rows == [] then []
    else GrayRows(rows[..|rows| - 1], maxValue) + DecodeGrayRow(rows[|rows| - 1], maxValue)
  }

  /** `loadPPM` (Image/Image.cpp:193-224): one pixel per line. */
  function PixmapPixels(lines: seq<string>, maxValue: nat): (pixels: seq<PixelValue>)
    requires forall i :: 0 <= i < |lines| ==> PixmapLineFits(lines[i], maxValue)
    ensures |pixels| == |lines|
    ensures forall k :: 0 <= k < |pixels| ==> pixels[k].Valid() && pixels[k].maxValue == maxValue
  {
    seq(|lines|, i requires 0 <= i < |lines| => DecodePixmapLine(lines[i], maxValue))
  }

  /** Decoding one more line appends its pixel. */
  lemma PixmapPixelsSnoc(lines: seq<string>, maxValue: nat, i: nat)
    requires i < |lines| && forall k :: 0 <= k <= i ==> PixmapLineFits(lines[k], maxValue)
    ensures PixmapPixels(lines[..i + 1], maxValue) == PixmapPixels(lines[..i], maxValue) + [DecodePixmapLine(lines[i], maxValue)]
  {
    assert lines[..i + 1][..i] == lines[..i];
  }

  /**
   * What `loadImage` needs of the file's lines: a magic line and a
   * dimensions line that fit their buffers (3 and 26 characters with the
   * NUL) and are not comments, a dimensions line with a space, a ceiling
   * line that fits its buffer, and enough pixel lines, each fitting its
   * buffer (`4 * width` for rows, 27 for pixmap lines) and holding values
   * the ceiling admits.
   */
  predicate Loadable(ext: string, magicLine: string, sizeLine: string, maxLine: string, rows: seq<string>)
  {
    IsNetpbmExtension(ext) ==>
      && |magicLine| <= 2 && (magicLine != [] ==> magicLine[0] != '#')
      && |sizeLine| <= 25 && HasDimensions(sizeLine) && sizeLine[0] != '#'
      && (ext != ".pbm" ==> |maxLine| <= 25)
      && var (w, h) := ParseDimensions(sizeLine);
         var m := Ceiling(ext, maxLine);
         if ext == ".ppm" then
           |rows| >= h * w && forall i :: 0 <= i < h * w ==> |rows[i]| <= 26 && PixmapLineFits(rows[i], m)
         else
           |rows| >= h && forall i :: 0 <= i < h ==> |rows[i]| < 4 * w && GrayRowFits(rows[i], m)
  }

  /** The image `Image(filePath, commandsToSkip)` holds after loading an accepted file. */
  function Loaded(path: string, magicLine: string, sizeLine: string, maxLine: string, rows: seq<string>, commandsToSkip: nat): ImageState
    requires |path| >= 4 && IsNetpbmExtension(ExtensionOf(path))
    requires Loadable(ExtensionOf(path), magicLine, sizeLine, maxLine, rows)
  {
    var ext := ExtensionOf(path);
    var (w, h) := ParseDimensions(sizeLine);
    var m := Ceiling(ext, maxLine);
    var pixels := if ext == ".ppm" then PixmapPixels(rows[..h * w], m) else GrayRows(rows[..h], m);
    ImageState(CString(magicLine), StemOf(path), ext, w, h, pixels, commandsToSkip)
  }

  /** Rows that each hold `w` fields give `n * w` pixels. */
  lemma {:induction false} GrayRowsLength(rows: seq<string>, maxValue: nat, w: nat)
    requires forall i :: 0 <= i < |rows| ==> GrayRowFits(rows[i], maxValue)
    requires forall i :: 0 <= i < |rows| ==> CountChar(CString(rows[i]), ' ') + 1 == w
    ensures |GrayRows(rows, maxValue)| == |rows| * w
  {
    if rows != [] {
      GrayRowsLength(rows[..|rows| - 1], maxValue, w);
      assert (|rows| - 1) * w + w == |rows| * w;
    }
  }

  /**
   * A loaded image is valid when its dimensions are positive and every
   * bitmap or graymap row holds exactly `width` fields.
   */
  lemma LoadedValid(path: string, magicLine: string, sizeLine: string, maxLine: string, rows: seq<string>, commandsToSkip: nat)
    requires |path| >= 4 && IsNetpbmExtension(ExtensionOf(path))
    requires Loadable(ExtensionOf(path), magicLine, sizeLine, maxLine, rows)
    requires commandsToSkip < UShortModulus
    requires ParseDimensions(sizeLine).0 >= 1 && ParseDimensions(sizeLine).1 >= 1
    requires ExtensionOf(path) != ".ppm" ==>
      forall i :: 0 <= i < ParseDimensions(sizeLine).1 ==> CountChar(CString(rows[i]), ' ') + 1 == ParseDimensions(sizeLine).0
    ensures Loaded(path, magicLine, sizeLine, maxLine, rows, commandsToSkip).Valid()
  {
    var (w, h) := ParseDimensions(sizeLine);
    var t := Loaded(path, magicLine, sizeLine, maxLine, rows, commandsToSkip);
    assert t.width == w && t.height == h && t.commandsToSkip == commandsToSkip;
    if ExtensionOf(path) == ".ppm" {
      PixmapLoadedPixels(path, magicLine, sizeLine, maxLine, rows, commandsToSkip);
    } else {
      GrayLoadedPixels(path, magicLine, sizeLine, maxLine, rows, commandsToSkip);
    }
  }

  /** A pixmap loads one valid pixel per line, `width * height` of them. */
  lemma PixmapLoadedPixels(path: string, magicLine: string, sizeLine: string, maxLine: string, rows: seq<string>, commandsToSkip: nat)
    requires |path| >= 4 && ExtensionOf(path) == ".ppm"
    requires Loadable(ExtensionOf(path), magicLine, sizeLine, maxLine, rows)
    ensures var t := Loaded(path, magicLine, sizeLine, maxLine, rows, commandsToSkip);
      |t.pixels| == t.height * t.width && AllValid(t.pixels)
  {
    var (w, h) := ParseDimensions(sizeLine);
    var m := Ceiling(".ppm", maxLine);
    var n := h * w;
    PixmapPrefix(rows, m, n);
    assert Loaded(path, magicLine, sizeLine, maxLine, rows, commandsToSkip).pixels == PixmapPixels(rows[..n], m);
  }

  /** The first `n` lines of a pixmap, each fitting, load `n` valid pixels. */
  lemma PixmapPrefix(lines: seq<string>, m: nat, n: nat)
    requires n <= |lines| && forall i :: 0 <= i < n ==> PixmapLineFits(lines[i], m)
    ensures forall i :: 0 <= i < |lines[..n]| ==> PixmapLineFits(lines[..n][i], m)
    ensures |PixmapPixels(lines[..n], m)| == n && AllValid(PixmapPixels(lines[..n], m))
  {
    forall i | 0 <= i < n
      ensures PixmapLineFits(lines[..n][i], m)
    {
      assert lines[..n][i] == lines[i];
    }
  }

  /** A bitmap or graymap whose rows each hold `width` fields loads `width * height` valid pixels. */
  lemma GrayLoadedPixels(path: string, magicLine: string, sizeLine: string, maxLine: string, rows: seq<string>, commandsToSkip: nat)
    requires |path| >= 4 && (ExtensionOf(path) == ".pbm" || ExtensionOf(path) == ".pgm")
    requires Loadable(ExtensionOf(path), magicLine, sizeLine, maxLine, rows)
    requires forall i :: 0 <= i < ParseDimensions(sizeLine).1 ==> CountChar(CString(rows[i]), ' ') + 1 == ParseDimensions(sizeLine).0
    ensures var t := Loaded(path, magicLine, sizeLine, maxLine, rows, commandsToSkip);
      |t.pixels| == t.height * t.width && AllValid(t.pixels)
  {
    var (w, h) := ParseDimensions(sizeLine);
    var m := Ceiling(ExtensionOf(path), maxLine);
    var rs := rows[..h];
    assert Loaded(path, magicLine, sizeLine, maxLine, rows, commandsToSkip).pixels == GrayRows(rs, m);
    forall i | 0 <= i < |rs|
      ensures GrayRowFits(rs[i], m) && CountChar(CString(rs[i]), ' ') + 1 == w
    {
      assert rs[i] == rows[i];
    }
    GrayRowsLength(rs, m, w);
  }

  // ------------------------------------------------------------ the writer

  /** The ceiling line `saveImage` writes for graymaps and pixmaps (Image/Image.cpp:135-137, 154). */
  function MaxLine(s: ImageState): string
    requires s.Valid()
  {
    MulMonotone(1, s.height, s.width);
    if s.fileExtension == ".pbm" then "" else Decimal(s.pixels[0].maxValue)
  }

  /**
   * The pixel lines `saveImage` writes (Image/Image.cpp:139-158): one line
   * per row of single values for bitmaps and graymaps, one line of three
   * values per pixel otherwise.
   */
  function PixelLines(s: ImageState): (lines: seq<string>)
    requires s.Valid()
    ensures |lines| == if s.fileExtension == ".pbm" || s.fileExtension == ".pgm" then s.height else |s.pixels|
  {
    if s.fileExtension == ".pbm" || s.fileExtension == ".pgm" then
      seq(s.height, r requires 0 <= r < s.height =>
        MulMonotone(r + 1, s.height, s.width);
        EncodeGrayRow(Row(s.pixels, s.width, r)))
    else
      seq(|s.pixels|, i requires 0 <= i < |s.pixels| => EncodePixmapLine(s.pixels[i]))
  }

  /**
   * The pixels of a valid image in the form its format stores: all share
   * the first pixel's ceiling, which is 1 for a bitmap, and bitmaps and
   * graymaps hold one value per pixel.
   */
  predicate StoredForm(s: ImageState)
    requires s.Valid()
  {
    MulMonotone(1, s.height, s.width);
    var m := s.pixels[0].maxValue;
    && (s.fileExtension == ".pbm" ==> m == 1)
    && forall i :: 0 <= i < |s.pixels| ==>
         if s.fileExtension == ".pbm" || s.fileExtension == ".pgm" then IsGrayPixel(s.pixels[i], m)
         else s.pixels[i].maxValue == m
  }

  /** A magic number `loadImage` reads back: at most two characters, no NUL, not a comment. */
  predicate MagicFits(magic: string)
  {
    |magic| <= 2 && '\0' !in magic && (magic != [] ==> magic[0] != '#')
  }

  /** Each row the writer prints for a bitmap or graymap decodes to that row. */
  lemma GrayLineRoundTrip(s: ImageState, r: nat)
    requires s.Valid() && StoredForm(s) && (s.fileExtension == ".pbm" || s.fileExtension == ".pgm")
    requires r < s.height
    ensures 0 < r * s.width + s.width <= |s.pixels|
    ensures GrayRowFits(PixelLines(s)[r], s.pixels[0].maxValue)
    ensures DecodeGrayRow(PixelLines(s)[r], s.pixels[0].maxValue) == Row(s.pixels, s.width, r)
  {
    GrayLineIs(s, r);
    RowIsGray(s, r);
    GrayRowRoundTrip(Row(s.pixels, s.width, r), s.pixels[0].maxValue);
  }

  /** For a bitmap or graymap the writer prints row `r` of the grid as line `r`. */
  lemma GrayLineIs(s: ImageState, r: nat)
    requires s.Valid() && (s.fileExtension == ".pbm" || s.fileExtension == ".pgm") && r < s.height
    ensures 0 < r * s.width + s.width <= |s.pixels|
    ensures PixelLines(s)[r] == EncodeGrayRow(Row(s.pixels, s.width, r))
  {
    MulMonotone(0, r, s.width);
    MulMonotone(r + 1, s.height, s.width);
  }

  /** Every pixel of a row of a stored bitmap or graymap holds one value under the first pixel's ceiling. */
  lemma RowIsGray(s: ImageState, r: nat)
    requires s.Valid() && StoredForm(s) && (s.fileExtension == ".pbm" || s.fileExtension == ".pgm") && r < s.height
    requires 0 < r * s.width + s.width <= |s.pixels|
    ensures forall j :: 0 <= j < s.width ==> IsGrayPixel(Row(s.pixels, s.width, r)[j], s.pixels[0].maxValue)
  {
    var row := Row(s.pixels, s.width, r);
    forall j | 0 <= j < s.width
      ensures IsGrayPixel(row[j], s.pixels[0].maxValue)
    {
      assert row[j] == s.pixels[r * s.width + j];
    }
  }

  /** Rows that each decode to the matching row of `p` load back as the first `n * w` pixels of `p`. */
  lemma {:induction false} GrayRowsOfRows(lines: seq<string>, p: seq<PixelValue>, w: nat, m: nat, n: nat)
    requires n <= |lines|
    requires forall i :: 0 <= i < |lines| ==> GrayRowFits(lines[i], m)
    requires forall i :: 0 <= i < |lines| ==> i * w + w <= |p| && DecodeGrayRow(lines[i], m) == Row(p, w, i)
    ensures n * w <= |p|
    ensures GrayRows(lines[..n], m) == p[..n * w]
  {
    if n > 0 {
      GrayRowsOfRows(lines, p, w, m, n - 1);
      assert (n - 1) * w + w == n * w;
      assert lines[..n][..n - 1] == lines[..n - 1];
      assert GrayRows(lines[..n], m) == GrayRows(lines[..n - 1], m) + Row(p, w, n - 1);
      PrefixOfRows(p, w, n - 1);
    }
  }

  /** Every row the writer prints for a bitmap or graymap fits the `4 * width` buffer. */
  lemma GrayLineFits(s: ImageState, r: nat)
    requires s.Valid() && (s.fileExtension == ".pbm" || s.fileExtension == ".pgm") && r < s.height
    ensures |PixelLines(s)[r]| < 4 * s.width
  {
    MulMonotone(r + 1, s.height, s.width);
    var row := Row(s.pixels, s.width, r);
    var fs := seq(|row|, i requires 0 <= i < |row| => Decimal(row[i].red));
    forall i | 0 <= i < |fs|
      ensures |fs[i]| <= 3
    {
      assert row[i] == s.pixels[r * s.width + i];
      DecimalLength(row[i].red);
    }
    JoinSpacesLength(fs, 3);
  }

  /** Every line the writer prints for a pixmap pixel fits the 27-character buffer. */
  lemma PixmapLineLength(p: PixelValue)
    requires p.Valid()
    ensures |EncodePixmapLine(p)| <= 26
  {
    DecimalLength(p.red);
    DecimalLength(p.green);
    DecimalLength(p.blue);
  }

  /** The pixmap line the writer prints for one pixel fits its buffer and decodes to the pixel. */
  lemma PixmapLineLoads(p: PixelValue, m: nat)
    requires p.Valid() && p.maxValue == m
    ensures |EncodePixmapLine(p)| <= 26 && PixmapLineFits(EncodePixmapLine(p), m)
    ensures DecodePixmapLine(EncodePixmapLine(p), m) == p
  {
    PixmapLineLength(p);
    PixmapLineRoundTrip(p);
  }

  /** For a pixmap the writer prints one line per pixel. */
  lemma PixmapLinesAre(s: ImageState)
    requires s.Valid() && s.fileExtension == ".ppm"
    ensures |PixelLines(s)| == |s.pixels| == s.height * s.width
    ensures forall i :: 0 <= i < |s.pixels| ==> PixelLines(s)[i] == EncodePixmapLine(s.pixels[i])
  {
  }

  /** The lines the writer prints for a pixmap fit their buffers and load back as its pixels. */
  lemma PixmapLinesLoad(s: ImageState)
    requires s.Valid() && s.fileExtension == ".ppm" && StoredForm(s)
    ensures var lines, m := PixelLines(s), s.pixels[0].maxValue;
      && |lines| == s.height * s.width
      && (forall i :: 0 <= i < |lines| ==> |lines[i]| <= 26 && PixmapLineFits(lines[i], m))
      && PixmapPixels(lines[..s.height * s.width], m) == s.pixels
  {
    var lines, m := PixelLines(s), s.pixels[0].maxValue;
    PixmapLinesAre(s);
    forall i | 0 <= i < |lines|
      ensures |lines[i]| <= 26 && PixmapLineFits(lines[i], m)
      ensures DecodePixmapLine(lines[i], m) == s.pixels[i]
    {
      PixmapLineLoads(s.pixels[i], m);
    }
    assert lines[..s.height * s.width] == lines;
  }

  /** The rows the writer prints for a bitmap or graymap fit their buffers and load back as its pixels. */
  lemma GrayLinesLoad(s: ImageState)
    requires s.Valid() && (s.fileExtension == ".pbm" || s.fileExtension == ".pgm") && StoredForm(s)
    ensures var lines, m := PixelLines(s), s.pixels[0].maxValue;
      && |lines| == s.height
      && (forall r :: 0 <= r < |lines| ==> |lines[r]| < 4 * s.width && GrayRowFits(lines[r], m))
      && GrayRows(lines[..s.height], m) == s.pixels
  {
    GrayLinesDecode(s);
    GrayRowsOfGrid(PixelLines(s), s.pixels, s.width, s.height, s.pixels[0].maxValue);
  }

  /** `h` rows that each decode to the matching row of a `h x w` grid load back as the whole grid. */
  lemma GrayRowsOfGrid(lines: seq<string>, p: seq<PixelValue>, w: nat, h: nat, m: nat)
    requires |lines| == h && |p| == h * w
    requires forall i :: 0 <= i < |lines| ==> GrayRowFits(lines[i], m)
    requires forall i :: 0 <= i < |lines| ==> i * w + w <= |p| && DecodeGrayRow(lines[i], m) == Row(p, w, i)
    ensures GrayRows(lines[..h], m) == p
  {
    GrayRowsOfRows(lines, p, w, m, h);
    assert p[..h * w] == p;
  }

  /** Every row the writer prints for a bitmap or graymap fits its buffer and decodes to that row. */
  lemma GrayLinesDecode(s: ImageState)
    requires s.Valid() && (s.fileExtension == ".pbm" || s.fileExtension == ".pgm") && StoredForm(s)
    ensures var lines, m := PixelLines(s), s.pixels[0].maxValue;
      && |lines| == s.height
      && (forall r :: 0 <= r < |lines| ==> |lines[r]| < 4 * s.width && GrayRowFits(lines[r], m))
      && (forall r :: 0 <= r < |lines| ==>
            r * s.width + s.width <= |s.pixels| && DecodeGrayRow(lines[r], m) == Row(s.pixels, s.width, r))
  {
    var lines, m := PixelLines(s), s.pixels[0].maxValue;
    forall r | 0 <= r < s.height
      ensures |lines[r]| < 4 * s.width && GrayRowFits(lines[r], m)
      ensures r * s.width + s.width <= |s.pixels| && DecodeGrayRow(lines[r], m) == Row(s.pixels, s.width, r)
    {
      GrayLineFits(s, r);
      GrayLineRoundTrip(s, r);
    }
  }

  /**
   * Loading the lines the writer prints for an image, with the image's
   * own path, gives the image back: magic number, path, extension,
   * dimensions and every pixel.
   */
  lemma LoadInvertsSave(s: ImageState)
    requires s.Valid() && IsNetpbmExtension(s.fileExtension) && StoredForm(s)
    requires MagicFits(s.magicNumber)
    ensures var path := s.filePath + s.fileExtension;
      && |path| >= 4 && ExtensionOf(path) == s.fileExtension
      && Loadable(s.fileExtension, s.magicNumber, EncodeDimensions(s.width, s.height), MaxLine(s), PixelLines(s))
      && Loaded(path, s.magicNumber, EncodeDimensions(s.width, s.height), MaxLine(s), PixelLines(s), s.commandsToSkip) == s
  {
    var path := s.filePath + s.fileExtension;
    assert StemOf(path) == s.filePath && ExtensionOf(path) == s.fileExtension;
    DimensionsRoundTrip(s.width, s.height);
    DecimalLength(s.width);
    DecimalLength(s.height);
    MulMonotone(1, s.height, s.width);
    var m := s.pixels[0].maxValue;
    if s.fileExtension != ".pbm" {
      DecimalLength(m);
      DecimalRoundTrip(m);
    }
    assert Ceiling(s.fileExtension, MaxLine(s)) == m;
    if s.fileExtension == ".ppm" {
      PixmapLinesLoad(s);
    } else {
      GrayLinesLoad(s);
    }
  }
}
