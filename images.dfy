/**
 * `class Image` of Image/Image.h and Image/Image.cpp: an image whose
 * transforms rewrite its pixel vector in place.  Every method is proved to
 * leave the object in the state the matching function of `ImageSpec`
 * computes from the old state.
 */
module Images {
  import opened Pixels
  import opened Grid
  import opened Codec
  import opened ImageSpec
  import opened Loading

  /**
   * The pixels of a temporary grid pushed back row by row, as every
   * geometric transform does at its end (e.g. Image/Image.cpp:335-341).
   */
  method Flatten(grid: array2<PixelValue>) returns (s: seq<PixelValue>)
    ensures |s| == grid.Length0 * grid.Length1
    ensures forall r: nat, c: nat :: r < grid.Length0 && c < grid.Length1 ==>
      At(s, grid.Length0, grid.Length1, r, c) == grid[r, c]
  {
    var rows, cols := grid.Length0, grid.Length1;
    s := [];
    var row := 0;
    while row < rows
      invariant row <= rows
      invariant |s| == row * cols
      invariant forall r: nat, c: nat :: r < row && c < cols ==> At(s, row, cols, r, c) == grid[r, c]
    {
      var col := 0;
      ghost var done := s;
      while col < cols
        invariant col <= cols
        invariant |s| == row * cols + col
        invariant s[..|done|] == done
        invariant forall c :: 0 <= c < col ==> s[row * cols + c] == grid[row, c]
      {
        s := s + [grid[row, col]];
        col := col + 1;
      }
      forall r: nat, c: nat | r < row + 1 && c < cols
        ensures At(s, row + 1, cols, r, c) == grid[r, c]
      {
        CellInRange(r, c, row + 1, cols);
        if r < row {
          CellInRange(r, c, row, cols);
          assert At(done, row, cols, r, c) == grid[r, c];
        }
      }
      row := row + 1;
    }
  }

  /**
   * The copy loop of `crop` (Image/Image.cpp:699-711): rows `h - yTL` to
   * `h - yBR - 1`, columns `xTL` to `xBR - 1`, read at `index + j + i * w`.
   */
  method CopyRect(p: seq<PixelValue>, w: nat, h: nat, xTL: nat, yTL: nat, xBR: nat, yBR: nat)
    returns (temp: seq<PixelValue>)
    requires |p| == h * w && FitsCrop(Rect(xTL, yTL, xBR, yBR), w, h)
    ensures temp == CroppedPixels(p, w, h, Rect(xTL, yTL, xBR, yBR))
  {
    ghost var rect := Rect(xTL, yTL, xBR, yBR);
    var newHeight, newWidth := yTL - yBR, xBR - xTL;
    ghost var cropped := CroppedPixels(p, w, h, rect);
    temp := [];
    var index := (h - yTL) * w + xTL;
    var i := 0;
    while i < newHeight
      invariant i <= newHeight
      invariant |temp| == i * newWidth <= |cropped| && temp == cropped[..|temp|]
    {
      MulMonotone(i + 1, newHeight, newWidth);
      assert (i + 1) * newWidth == i * newWidth + newWidth;
      var j := 0;
      while j < newWidth
        invariant j <= newWidth
        invariant |temp| == i * newWidth + j && temp == cropped[..|temp|]
      {
        CropReadIndex(p, w, h, rect, i, j);
        assert At(cropped, newHeight, newWidth, i, j) == cropped[|temp|];
        temp := temp + [p[(index + j) + (i * w)]];
        j := j + 1;
      }
      i := i + 1;
    }
  }

  /** The read of Image/Image.cpp:709 is in range and yields the next pixel of the cropped grid. */
  lemma CropReadIndex(p: seq<PixelValue>, w: nat, h: nat, rect: Rect, i: nat, j: nat)
    requires |p| == h * w && FitsCrop(rect, w, h)
    requires i < rect.yTL - rect.yBR && j < rect.xBR - rect.xTL
    ensures var k := ((h - rect.yTL) * w + rect.xTL + j) + i * w;
      0 <= k < |p| && p[k] == At(CroppedPixels(p, w, h, rect), rect.yTL - rect.yBR, rect.xBR - rect.xTL, i, j)
  {
    var top := h - rect.yTL;
    CroppedPixelsAt(p, w, h, rect, i, j);
    CellInRange(top + i, rect.xTL + j, h, w);
    assert (top + i) * w == top * w + i * w;
  }

  /** `class Image` (Image/Image.h:11-64). */
  class Image {
    var magicNumber: string
    var filePath: string
    var fileExtension: string
    var width: nat
    var height: nat
    var pixels: seq<PixelValue>
    var commandsToSkip: nat

    /** The fields as one value. */
    function Value(): ImageState
      reads this
    {
      ImageState(magicNumber, filePath, fileExtension, width, height, pixels, commandsToSkip)
    }

    predicate Valid()
      reads this
    {
      Value().Valid()
    }

    /** `Image()` (Image/Image.cpp:5). */
    constructor Default()
      ensures Value() == EmptyImage
    {
      magicNumber, filePath, fileExtension := "", "", "";
      width, height, pixels, commandsToSkip := 0, 0, [], 0;
    }

    /**
     * `Image(filePath, commandsToSkip)` on an opened file (Image/Image.cpp:7-11,
     * 41-113), with the file given as its magic line, dimensions line,
     * ceiling line and pixel lines.  A rejected extension keeps the path
     * and extension and leaves magic number and dimensions indeterminate.
     */
    constructor Load(filePath: string, magicLine: string, sizeLine: string, maxLine: string, rows: seq<string>,
                     commandsToSkip: nat)
      requires |filePath| >= 4 && commandsToSkip < UShortModulus
      requires Loadable(ExtensionOf(filePath), magicLine, sizeLine, maxLine, rows)
      ensures this.filePath == StemOf(filePath) && fileExtension == ExtensionOf(filePath)
      ensures this.commandsToSkip == commandsToSkip
      ensures !IsNetpbmExtension(fileExtension) ==> pixels == []
      ensures IsNetpbmExtension(fileExtension) ==>
        Value() == Loaded(filePath, magicLine, sizeLine, maxLine, rows, commandsToSkip)
    {
      this.filePath := filePath[..|filePath| - 4];
      fileExtension := filePath[|filePath| - 4..];
      pixels := [];
      this.commandsToSkip := commandsToSkip;
      new;
      assert fileExtension == ExtensionOf(filePath) && this.filePath == StemOf(filePath);
      if IsNetpbmExtension(fileExtension) {
        ghost var loaded := Loaded(filePath, magicLine, sizeLine, maxLine, rows, commandsToSkip);
        magicNumber := CString(magicLine);
        var dimensions := ParseDimensions(sizeLine);
        width, height := dimensions.0, dimensions.1;
        if fileExtension == ".pbm" {
          LoadPBMAndPGM(rows, 1);
          assert pixels == loaded.pixels;
        } else {
          var maxValue := ParseMaxValue(maxLine);
          if fileExtension == ".pgm" {
            LoadPBMAndPGM(rows, maxValue);
            assert pixels == loaded.pixels;
          } else {
            LoadPPM(rows, maxValue);
            assert pixels == loaded.pixels;
          }
        }
        assert Value() == loaded;
      }
    }

    /** `loadPBMAndPGM` (Image/Image.cpp:165-191): one decoded row after the other, `height` rows. */
    method LoadPBMAndPGM(rows: seq<string>, maxValue: nat)
      requires |rows| >= height && forall i :: 0 <= i < height ==> GrayRowFits(rows[i], maxValue)
      modifies this`pixels
      ensures pixels == old(pixels) + GrayRows(rows[..height], maxValue)
    {
      var i := 0;
      while i < height
        invariant i <= height
        invariant pixels == old(pixels) + GrayRows(rows[..i], maxValue)
      {
        assert rows[..i + 1][..i] == rows[..i];
        pixels := pixels + DecodeGrayRow(rows[i], maxValue);
        i := i + 1;
      }
    }

    /** `loadPPM` (Image/Image.cpp:193-224): one pixel per line, `height * width` lines. */
    method LoadPPM(lines: seq<string>, maxValue: nat)
      requires |lines| >= height * width && forall i :: 0 <= i < height * width ==> PixmapLineFits(lines[i], maxValue)
      modifies this`pixels
      ensures pixels == old(pixels) + PixmapPixels(lines[..height * width], maxValue)
    {
      var pixelCount := height * width;
      ghost var before := pixels;
      var i := 0;
      while i < pixelCount
        invariant i <= pixelCount <= |lines|
        invariant forall k :: 0 <= k < pixelCount ==> PixmapLineFits(lines[k], maxValue)
        invariant pixels == before + PixmapPixels(lines[..i], maxValue)
      {
        PixmapPixelsSnoc(lines, maxValue, i);
        pixels := pixels + [DecodePixmapLine(lines[i], maxValue)];
        i := i + 1;
      }
    }

    /** `toNegative` (Image/Image.cpp:280-295). */
    method ToNegative()
      requires Valid()
      modifies this
      ensures Value() == ImageSpec.ToNegative(old(Value()))
    {
      var imgSize := width * height;
      var i := 0;
      while i < imgSize
        invariant i <= imgSize == |pixels| == |old(pixels)|
        invariant forall k :: 0 <= k < i ==> pixels[k] == NegativePixel(old(pixels)[k])
        invariant forall k :: i <= k < |pixels| ==> pixels[k] == old(pixels)[k]
        modifies this`pixels
      {
        pixels := pixels[i := NegativePixel(pixels[i])];
        i := i + 1;
      }
    }

    /** `toMonochrome` (Image/Image.cpp:254-278). */
    method ToMonochrome()
      requires Valid()
      modifies this
      ensures Value() == ImageSpec.ToMonochrome(old(Value()))
    {
      if fileExtension == ".pbm" {
        return;
      }
      var imgSize := width * height;
      var i := 0;
      while i < imgSize
        invariant i <= imgSize == |pixels| == |old(pixels)|
        invariant forall k :: 0 <= k < i ==> pixels[k] == MonochromePixel(old(pixels)[k])
        invariant forall k :: i <= k < |pixels| ==> pixels[k] == old(pixels)[k]
        modifies this`pixels
      {
        pixels := pixels[i := MonochromePixel(pixels[i])];
        i := i + 1;
      }
    }

    /** `toGrayscale` (Image/Image.cpp:235-252), with the weighting as the parameter `gray`. */
    method ToGrayscale(gray: PixelValue -> nat)
      requires Valid()
      modifies this
      ensures Value() == ImageSpec.ToGrayscale(old(Value()), gray)
    {
      if fileExtension == ".pbm" || fileExtension == ".pgm" {
        return;
      }
      var imgSize := width * height;
      var i := 0;
      while i < imgSize
        invariant i <= imgSize == |pixels| == |old(pixels)|
        invariant forall k :: 0 <= k < i ==>
          pixels[k] == PixelValue(old(pixels)[k].maxValue, gray(old(pixels)[k]), gray(old(pixels)[k]), gray(old(pixels)[k]))
        invariant forall k :: i <= k < |pixels| ==> pixels[k] == old(pixels)[k]
        modifies this`pixels
      {
        var grayValue := gray(pixels[i]);
        pixels := pixels[i := PixelValue(pixels[i].maxValue, grayValue, grayValue, grayValue)];
        i := i + 1;
      }
    }

    /**
     * The first half of `rotateLeft` (Image/Image.cpp:326-333): the pixel
     * vector, an `L1 x L0` grid, is erased from the front into `temp`
     * column by column, each column from the bottom row up.
     */
    method TakeForRotateLeft(temp: array2<PixelValue>)
      requires |pixels| == temp.Length1 * temp.Length0
      modifies this`pixels, temp
      ensures pixels == []
      ensures forall r: nat, c: nat :: r < temp.Length0 && c < temp.Length1 ==>
        temp[r, c] == At(old(pixels), temp.Length1, temp.Length0, c, temp.Length0 - 1 - r)
    {
      ghost var p0 := pixels;
      var rows, cols := temp.Length0, temp.Length1;
      var col := 0;
      ghost var consumed := 0;
      while col < cols
        invariant col <= cols && consumed == col * rows <= |p0|
        invariant pixels == p0[consumed..]
        invariant forall r: nat, c: nat :: r < rows && c < col ==> temp[r, c] == At(p0, cols, rows, c, rows - 1 - r)
      {
        MulMonotone(col + 1, cols, rows);
        assert (col + 1) * rows == consumed + rows;
        var row: int := rows - 1;
        while row >= 0
          invariant -1 <= row < rows
          invariant consumed + rows <= |p0|
          invariant pixels == p0[consumed + (rows - 1 - row)..]
          invariant forall r: nat, c: nat :: r < rows && c < col ==> temp[r, c] == At(p0, cols, rows, c, rows - 1 - r)
          invariant forall r :: row < r < rows ==> temp[r, col] == At(p0, cols, rows, col, rows - 1 - r)
        {
          assert pixels[0] == p0[consumed + (rows - 1 - row)];
          temp[row, col] := pixels[0];
          pixels := pixels[1..];
          row := row - 1;
        }
        col := col + 1;
        consumed := consumed + rows;
      }
    }

    /**
     * The first half of `rotateRight` (Image/Image.cpp:352-359): columns
     * from the last to the first, each from the top row down.
     */
    method TakeForRotateRight(temp: array2<PixelValue>)
      requires |pixels| == temp.Length1 * temp.Length0
      modifies this`pixels, temp
      ensures pixels == []
      ensures forall r: nat, c: nat :: r < temp.Length0 && c < temp.Length1 ==>
        temp[r, c] == At(old(pixels), temp.Length1, temp.Length0, temp.Length1 - 1 - c, r)
    {
      ghost var p0 := pixels;
      var rows, cols := temp.Length0, temp.Length1;
      var col: int := cols - 1;
      ghost var consumed := 0;
      while col >= 0
        invariant -1 <= col < cols && consumed == (cols - 1 - col) * rows <= |p0|
        invariant pixels == p0[consumed..]
        invariant forall r: nat, c: nat :: r < rows && col < c < cols ==> temp[r, c] == At(p0, cols, rows, cols - 1 - c, r)
      {
        MulMonotone(cols - col, cols, rows);
        assert (cols - col) * rows == consumed + rows;
        var row := 0;
        while row < rows
          invariant row <= rows
          invariant consumed + rows <= |p0|
          invariant pixels == p0[consumed + row..]
          invariant forall r: nat, c: nat :: r < rows && col < c < cols ==> temp[r, c] == At(p0, cols, rows, cols - 1 - c, r)
          invariant forall r :: 0 <= r < row ==> temp[r, col] == At(p0, cols, rows, cols - 1 - col, r)
        {
          assert pixels[0] == p0[consumed + row];
          temp[row, col] := pixels[0];
          pixels := pixels[1..];
          row := row + 1;
        }
        col := col - 1;
        consumed := consumed + rows;
      }
    }

    /**
     * The first half of `flipHorizontal` (Image/Image.cpp:377-384): rows
     * from the top, each from the last column to the first.
     */
    method TakeForFlipHorizontal(temp: array2<PixelValue>)
      requires |pixels| == temp.Length0 * temp.Length1
      modifies this`pixels, temp
      ensures pixels == []
      ensures forall r: nat, c: nat :: r < temp.Length0 && c < temp.Length1 ==>
        temp[r, c] == At(old(pixels), temp.Length0, temp.Length1, r, temp.Length1 - 1 - c)
    {
      ghost var p0 := pixels;
      var rows, cols := temp.Length0, temp.Length1;
      var row := 0;
      ghost var consumed := 0;
      while row < rows
        invariant row <= rows && consumed == row * cols <= |p0|
        invariant pixels == p0[consumed..]
        invariant forall r: nat, c: nat :: r < row && c < cols ==> temp[r, c] == At(p0, rows, cols, r, cols - 1 - c)
      {
        MulMonotone(row + 1, rows, cols);
        assert (row + 1) * cols == consumed + cols;
        var col: int := cols - 1;
        while col >= 0
          invariant -1 <= col < cols
          invariant consumed + cols <= |p0|
          invariant pixels == p0[consumed + (cols - 1 - col)..]
          invariant forall r: nat, c: nat :: r < row && c < cols ==> temp[r, c] == At(p0, rows, cols, r, cols - 1 - c)
          invariant forall c :: col < c < cols ==> temp[row, c] == At(p0, rows, cols, row, cols - 1 - c)
        {
          assert pixels[0] == p0[consumed + (cols - 1 - col)];
          temp[row, col] := pixels[0];
          pixels := pixels[1..];
          col := col - 1;
        }
        row := row + 1;
        consumed := consumed + cols;
      }
    }

    /**
     * The first half of `flipVertical` (Image/Image.cpp:401-408): rows from
     * the bottom up, each from the first column to the last.
     */
    method TakeForFlipVertical(temp: array2<PixelValue>)
      requires |pixels| == temp.Length0 * temp.Length1
      modifies this`pixels, temp
      ensures pixels == []
      ensures forall r: nat, c: nat :: r < temp.Length0 && c < temp.Length1 ==>
        temp[r, c] == At(old(pixels), temp.Length0, temp.Length1, temp.Length0 - 1 - r, c)
    {
      ghost var p0 := pixels;
      var rows, cols := temp.Length0, temp.Length1;
      var row: int := rows - 1;
      ghost var consumed := 0;
      while row >= 0
        invariant -1 <= row < rows && consumed == (rows - 1 - row) * cols <= |p0|
        invariant pixels == p0[consumed..]
        invariant forall r: nat, c: nat :: row < r < rows && c < cols ==> temp[r, c] == At(p0, rows, cols, rows - 1 - r, c)
      {
        MulMonotone(rows - row, rows, cols);
        assert (rows - row) * cols == consumed + cols;
        var col := 0;
        while col < cols
          invariant col <= cols
          invariant consumed + cols <= |p0|
          invariant pixels == p0[consumed + col..]
          invariant forall r: nat, c: nat :: row < r < rows && c < cols ==> temp[r, c] == At(p0, rows, cols, rows - 1 - r, c)
          invariant forall c :: 0 <= c < col ==> temp[row, c] == At(p0, rows, cols, rows - 1 - row, c)
        {
          assert pixels[0] == p0[consumed + col];
          temp[row, col] := pixels[0];
          pixels := pixels[1..];
          col := col + 1;
        }
        row := row - 1;
        consumed := consumed + cols;
      }
    }

    /** `rotateLeft` (Image/Image.cpp:319-344). */
    method RotateLeft()
      requires Valid()
      modifies this
      ensures Value() == ImageSpec.RotateLeft(old(Value()))
    {
      ghost var p0, w0, h0 := pixels, width, height;
      width, height := height, width;
      var temp := new PixelValue[height, width];
      TakeForRotateLeft(temp);
      var rebuilt := Flatten(temp);
      pixels := pixels + rebuilt;
      assert pixels == rebuilt;
      forall r: nat, c: nat | r < w0 && c < h0
        ensures At(pixels, w0, h0, r, c) == At(RotatedLeft(p0, w0, h0), w0, h0, r, c)
      {
        assert At(rebuilt, w0, h0, r, c) == temp[r, c];
        RotatedLeftAt(p0, w0, h0, r, c);
      }
      SameCells(pixels, RotatedLeft(p0, w0, h0), w0, h0);
    }

    /** `rotateRight` (Image/Image.cpp:345-370). */
    method RotateRight()
      requires Valid()
      modifies this
      ensures Value() == ImageSpec.RotateRight(old(Value()))
    {
      ghost var p0, w0, h0 := pixels, width, height;
      width, height := height, width;
      var temp := new PixelValue[height, width];
      TakeForRotateRight(temp);
      var rebuilt := Flatten(temp);
      pixels := pixels + rebuilt;
      assert pixels == rebuilt;
      forall r: nat, c: nat | r < w0 && c < h0
        ensures At(pixels, w0, h0, r, c) == At(RotatedRight(p0, w0, h0), w0, h0, r, c)
      {
        assert At(rebuilt, w0, h0, r, c) == temp[r, c];
        RotatedRightAt(p0, w0, h0, r, c);
      }
      SameCells(pixels, RotatedRight(p0, w0, h0), w0, h0);
    }

    /** `flipHorizontal` (Image/Image.cpp:372-395). */
    method FlipHorizontal()
      requires Valid()
      modifies this
      ensures Value() == ImageSpec.FlipHorizontal(old(Value()))
    {
      ghost var p0 := pixels;
      var temp := new PixelValue[height, width];
      TakeForFlipHorizontal(temp);
      var rebuilt := Flatten(temp);
      pixels := pixels + rebuilt;
      assert pixels == rebuilt;
      forall r: nat, c: nat | r < height && c < width
        ensures At(pixels, height, width, r, c) == At(FlippedHorizontally(p0, width, height), height, width, r, c)
      {
        assert At(rebuilt, height, width, r, c) == temp[r, c];
        FlippedHorizontallyAt(p0, width, height, r, c);
      }
      SameCells(pixels, FlippedHorizontally(p0, width, height), height, width);
    }

    /** `flipVertical` (Image/Image.cpp:396-419). */
    method FlipVertical()
      requires Valid()
      modifies this
      ensures Value() == ImageSpec.FlipVertical(old(Value()))
    {
      ghost var p0 := pixels;
      var temp := new PixelValue[height, width];
      TakeForFlipVertical(temp);
      var rebuilt := Flatten(temp);
      pixels := pixels + rebuilt;
      assert pixels == rebuilt;
      forall r: nat, c: nat | r < height && c < width
        ensures At(pixels, height, width, r, c) == At(FlippedVertically(p0, width, height), height, width, r, c)
      {
        assert At(rebuilt, height, width, r, c) == temp[r, c];
        FlippedVerticallyAt(p0, width, height, r, c);
      }
      SameCells(pixels, FlippedVertically(p0, width, height), height, width);
    }
  
    /**
     * `crop` (Image/Image.cpp:665-716).  Every read `pixels.at(...)` of
     * line 709 is an in-range sequence index here.
     */
    method Crop(xTL: nat, yTL: nat, xBR: nat, yBR: nat)
      requires Valid()
      modifies this
      ensures Value() == ImageSpec.Crop(old(Value()), xTL, yTL, xBR, yBR)
    {
      var left, top, right, bottom := xTL, yTL, xBR, yBR;
      if top >= height {
        top := ToUShort(height - 1);
      }
      if bottom >= height {
        bottom := ToUShort(height - 1);
      }
      if left >= width {
        left := ToUShort(width - 1);
      }
      if right >= width {
        right := ToUShort(width - 1);
      }
      if left > right {
        left, right := right, left;
      }
      if bottom > top {
        bottom, top := top, bottom;
      }
      ghost var rect := Rect(left, top, right, bottom);
      assert rect == NormalizedRect(width, height, xTL, yTL, xBR, yBR);
      if bottom == top || left == right {
        return;
      }
      var newHeight, newWidth := top - bottom, right - left;
      var temp := CopyRect(pixels, width, height, left, top, right, bottom);
      pixels := temp;
      height := newHeight;
      width := newWidth;
    }
  }
}
