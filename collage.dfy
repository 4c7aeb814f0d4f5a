/**
 * `makeCollage` (Image/Image.cpp:421-663): the collage is built by pushing
 * pixels back one at a time, branch by branch as the source does, and each
 * branch is proved to produce the rows `CollageSpec` describes.
 */
module Collages {
  import opened Pixels
  import opened Grid
  import opened ImageSpec
  import opened CollageSpec
  import opened Images

  /** `for j < n: push_back(p[start + j])`. */
  method AppendRange(acc: seq<PixelValue>, p: seq<PixelValue>, start: nat, n: nat) returns (r: seq<PixelValue>)
    requires start + n <= |p|
    ensures r == acc + p[start..start + n]
  {
    r := acc;
    for j := 0 to n
      invariant r == acc + p[start..start + j]
    {
      r := r + [p[start + j]];
    }
  }

  /** `for j < n: push_back(blackPixel)`. */
  method AppendBlacks(acc: seq<PixelValue>, b: PixelValue, n: nat) returns (r: seq<PixelValue>)
    ensures r == acc + Blacks(b, n)
  {
    r := acc;
    for j := 0 to n
      invariant r == acc + Blacks(b, j)
    {
      r := r + [b];
    }
  }

  lemma AppendAssoc(a: seq<PixelValue>, b: seq<PixelValue>, c: seq<PixelValue>)
    ensures a + b + c == a + (b + c)
  {
  }

  /** Row `i` of a grid sits at `i * w` in its vector. */
  lemma RowAt(p: seq<PixelValue>, w: nat, h: nat, i: nat)
    requires |p| == h * w && i < h
    ensures 0 <= i * w && i * w + w <= |p| && Row(p, w, i) == p[i * w..i * w + w]
  {
    MulMonotone(i + 1, h, w);
  }

  /** An image as tall as the collage contributes its own row `i`. */
  lemma FullHeightPart(p: seq<PixelValue>, w: nat, h: nat, b: PixelValue, i: nat)
    requires |p| == h * w && i < h
    ensures HorizontalPart(p, w, h, h, b, i) == (RowAt(p, w, h, i); p[i * w..i * w + w])
  {
    RowAt(p, w, h, i);
  }

  /** With equal heights, writing collage row `i` writes row `i` of each image. */
  lemma EqualHeightStep(s1: ImageState, s2: ImageState, b: PixelValue, i: nat, acc: seq<PixelValue>)
    requires Shaped(s1) && Shaped(s2) && s1.height == s2.height && i < s1.height
    requires acc == Concat(HorizontalRows(s1, s2, b)[..i])
    ensures 0 <= i * s1.width && i * s1.width + s1.width <= |s1.pixels|
    ensures 0 <= i * s2.width && i * s2.width + s2.width <= |s2.pixels|
    ensures acc + s1.pixels[i * s1.width..i * s1.width + s1.width] + s2.pixels[i * s2.width..i * s2.width + s2.width]
         == Concat(HorizontalRows(s1, s2, b)[..i + 1])
  {
    var rows := HorizontalRows(s1, s2, b);
    RowAt(s1.pixels, s1.width, s1.height, i);
    RowAt(s2.pixels, s2.width, s2.height, i);
    FullHeightPart(s1.pixels, s1.width, s1.height, b, i);
    RowAt(s2.pixels, s2.width, s2.height, i);
    FullHeightPart(s2.pixels, s2.width, s2.height, b, i);
    var x, y := s1.pixels[i * s1.width..i * s1.width + s1.width], s2.pixels[i * s2.width..i * s2.width + s2.width];
    assert rows[i] == x + y;
    ConcatSnoc(rows, i);
    AppendAssoc(acc, x, y);
  }

  /** Equal heights: row `i` of the first image, then row `i` of the second (Image/Image.cpp:461-476). */
  method HorizontalEqual(s1: ImageState, s2: ImageState, b: PixelValue) returns (pixels: seq<PixelValue>)
    requires Shaped(s1) && Shaped(s2) && s1.height == s2.height
    ensures pixels == Concat(HorizontalRows(s1, s2, b))
  {
    pixels := [];
    for i := 0 to s1.height
      invariant pixels == Concat(HorizontalRows(s1, s2, b)[..i])
    {
      EqualHeightStep(s1, s2, b, i, pixels);
      pixels := AppendRange(pixels, s1.pixels, i * s1.width, s1.width);
      pixels := AppendRange(pixels, s2.pixels, i * s2.width, s2.width);
    }
    assert HorizontalRows(s1, s2, b)[..s1.height] == HorizontalRows(s1, s2, b);
  }

  /**
   * The part an image centred in a band of `total` rows contributes to row
   * `i`, told apart by the same tests the source makes: black in the `top`
   * rows and the `bottom` rows, otherwise its row `i - top`.
   */
  lemma CentredPart(p: seq<PixelValue>, w: nat, h: nat, total: nat, b: PixelValue, i: nat, top: nat, bottom: nat)
    requires |p| == h * w && h <= total && i < total
    requires top == PadBefore(h, total) && bottom == PadAfter(h, total)
    ensures top > i || bottom >= total - i ==> HorizontalPart(p, w, h, total, b, i) == Blacks(b, w)
    ensures !(top > i || bottom >= total - i) ==>
      && 0 <= (i - top) * w && (i - top) * w + w <= |p|
      && HorizontalPart(p, w, h, total, b, i) == p[(i - top) * w..(i - top) * w + w]
  {
    if !(top > i || bottom >= total - i) {
      RowAt(p, w, h, i - top);
    }
  }

  /** With the second image taller, collage row `i` is the first image's part, then row `i` of the second. */
  lemma TallerSecondStep(s1: ImageState, s2: ImageState, b: PixelValue, i: nat, acc: seq<PixelValue>)
    requires Shaped(s1) && Shaped(s2) && s1.height < s2.height && i < s2.height
    requires acc == Concat(HorizontalRows(s1, s2, b)[..i])
    ensures 0 <= i * s2.width && i * s2.width + s2.width <= |s2.pixels|
    ensures acc + HorizontalPart(s1.pixels, s1.width, s1.height, s2.height, b, i) + s2.pixels[i * s2.width..i * s2.width + s2.width]
         == Concat(HorizontalRows(s1, s2, b)[..i + 1])
  {
    var rows := HorizontalRows(s1, s2, b);
    RowAt(s2.pixels, s2.width, s2.height, i);
    FullHeightPart(s2.pixels, s2.width, s2.height, b, i);
    var x, y := HorizontalPart(s1.pixels, s1.width, s1.height, s2.height, b, i), s2.pixels[i * s2.width..i * s2.width + s2.width];
    assert rows[i] == x + y;
    ConcatSnoc(rows, i);
    AppendAssoc(acc, x, y);
  }

  /** With the first image taller, collage row `i` is row `i` of the first image, then the second image's part. */
  lemma TallerFirstStep(s1: ImageState, s2: ImageState, b: PixelValue, i: nat, acc: seq<PixelValue>)
    requires Shaped(s1) && Shaped(s2) && s2.height < s1.height && i < s1.height
    requires acc == Concat(HorizontalRows(s1, s2, b)[..i])
    ensures 0 <= i * s1.width && i * s1.width + s1.width <= |s1.pixels|
    ensures acc + s1.pixels[i * s1.width..i * s1.width + s1.width] + HorizontalPart(s2.pixels, s2.width, s2.height, s1.height, b, i)
         == Concat(HorizontalRows(s1, s2, b)[..i + 1])
  {
    var rows := HorizontalRows(s1, s2, b);
    RowAt(s1.pixels, s1.width, s1.height, i);
    FullHeightPart(s1.pixels, s1.width, s1.height, b, i);
    var x, y := s1.pixels[i * s1.width..i * s1.width + s1.width], HorizontalPart(s2.pixels, s2.width, s2.height, s1.height, b, i);
    assert rows[i] == x + y;
    ConcatSnoc(rows, i);
    AppendAssoc(acc, x, y);
  }

  /**
   * One row of the loop below: the first image's part of row `i`, black
   * when `i` falls in the top or bottom band, then row `i` of the second.
   */
  method TallerSecondRow(s1: ImageState, s2: ImageState, b: PixelValue, i: nat, top: nat, bottom: nat, acc: seq<PixelValue>)
    returns (pixels: seq<PixelValue>)
    requires Shaped(s1) && Shaped(s2) && s1.height < s2.height && i < s2.height
    requires top == PadBefore(s1.height, s2.height) && bottom == PadAfter(s1.height, s2.height)
    requires acc == Concat(HorizontalRows(s1, s2, b)[..i])
    ensures pixels == Concat(HorizontalRows(s1, s2, b)[..i + 1])
  {
    TallerSecondStep(s1, s2, b, i, acc);
    CentredPart(s1.pixels, s1.width, s1.height, s2.height, b, i, top, bottom);
    if top > i {
      pixels := AppendBlacks(acc, b, s1.width);
    } else if bottom >= s2.height - i {
      pixels := AppendBlacks(acc, b, s1.width);
    } else {
      pixels := AppendRange(acc, s1.pixels, (i - top) * s1.width, s1.width);
    }
    assert pixels == acc + HorizontalPart(s1.pixels, s1.width, s1.height, s2.height, b, i);
    pixels := AppendRange(pixels, s2.pixels, i * s2.width, s2.width);
  }

  /**
   * The second image taller by `diff`: each row holds the first image's
   * part (black in the top and bottom bands) and then the second image's
   * row (Image/Image.cpp:480-524).
   */
  method HorizontalTallerSecond(s1: ImageState, s2: ImageState, b: PixelValue, diff: nat) returns (pixels: seq<PixelValue>)
    requires Shaped(s1) && Shaped(s2) && diff == s2.height - s1.height > 0
    ensures pixels == Concat(HorizontalRows(s1, s2, b))
  {
    var top, bottom := diff / 2, diff / 2;
    if diff % 2 != 0 {
      bottom := bottom + 1;
    }
    assert top == PadBefore(s1.height, s2.height) && bottom == PadAfter(s1.height, s2.height);
    pixels := [];
    for i := 0 to s2.height
      invariant pixels == Concat(HorizontalRows(s1, s2, b)[..i])
    {
      pixels := TallerSecondRow(s1, s2, b, i, top, bottom, pixels);
    }
    assert HorizontalRows(s1, s2, b)[..s2.height] == HorizontalRows(s1, s2, b);
  }

  /** One row of the loop below: row `i` of the first image, then the second image's part of row `i`. */
  method TallerFirstRow(s1: ImageState, s2: ImageState, b: PixelValue, i: nat, top: nat, bottom: nat, acc: seq<PixelValue>)
    returns (pixels: seq<PixelValue>)
    requires Shaped(s1) && Shaped(s2) && s2.height < s1.height && i < s1.height
    requires top == PadBefore(s2.height, s1.height) && bottom == PadAfter(s2.height, s1.height)
    requires acc == Concat(HorizontalRows(s1, s2, b)[..i])
    ensures pixels == Concat(HorizontalRows(s1, s2, b)[..i + 1])
  {
    TallerFirstStep(s1, s2, b, i, acc);
    pixels := AppendRange(acc, s1.pixels, i * s1.width, s1.width);
    CentredPart(s2.pixels, s2.width, s2.height, s1.height, b, i, top, bottom);
    ghost var middle := pixels;
    if top > i {
      pixels := AppendBlacks(pixels, b, s2.width);
    } else if bottom >= s1.height - i {
      pixels := AppendBlacks(pixels, b, s2.width);
    } else {
      pixels := AppendRange(pixels, s2.pixels, (i - top) * s2.width, s2.width);
    }
    assert pixels == middle + HorizontalPart(s2.pixels, s2.width, s2.height, s1.height, b, i);
  }

  /** The first image taller by `diff`: the mirror image of the branch above (Image/Image.cpp:525-565). */
  method HorizontalTallerFirst(s1: ImageState, s2: ImageState, b: PixelValue, diff: nat) returns (pixels: seq<PixelValue>)
    requires Shaped(s1) && Shaped(s2) && diff == s1.height - s2.height > 0
    ensures pixels == Concat(HorizontalRows(s1, s2, b))
  {
    var top, bottom := diff / 2, diff / 2;
    if diff % 2 != 0 {
      bottom := bottom + 1;
    }
    assert top == PadBefore(s2.height, s1.height) && bottom == PadAfter(s2.height, s1.height);
    pixels := [];
    for i := 0 to s1.height
      invariant pixels == Concat(HorizontalRows(s1, s2, b)[..i])
    {
      pixels := TallerFirstRow(s1, s2, b, i, top, bottom, pixels);
    }
    assert HorizontalRows(s1, s2, b)[..s1.height] == HorizontalRows(s1, s2, b);
  }

  /** With equal widths, the collage is the first image's vector followed by the second's. */
  lemma EqualWidthPixels(s1: ImageState, s2: ImageState, b: PixelValue)
    requires Shaped(s1) && Shaped(s2) && s1.width == s2.width
    ensures [] + s1.pixels[0..|s1.pixels|] + s2.pixels[0..|s2.pixels|] == Concat(VerticalRows(s1, s2, b))
  {
    assert [] + s1.pixels[0..|s1.pixels|] + s2.pixels[0..|s2.pixels|] == s1.pixels + s2.pixels;
    ConcatSplit(VerticalRows(s1, s2, b), s1.height);
    VerticalHead(s1, s2, b);
    VerticalTail(s1, s2, b);
  }

  /** Equal widths: all pixels of the first image, then all of the second (Image/Image.cpp:573-586). */
  method VerticalEqual(s1: ImageState, s2: ImageState, b: PixelValue) returns (pixels: seq<PixelValue>)
    requires Shaped(s1) && Shaped(s2) && s1.width == s2.width
    ensures pixels == Concat(VerticalRows(s1, s2, b))
  {
    pixels := [];
    pixels := AppendRange(pixels, s1.pixels, 0, |s1.pixels|);
    pixels := AppendRange(pixels, s2.pixels, 0, |s2.pixels|);
    EqualWidthPixels(s1, s2, b);
  }

  /** Below the rows of the narrower first image come the second image's pixels unchanged. */
  lemma WiderSecondTail(s1: ImageState, s2: ImageState, b: PixelValue, acc: seq<PixelValue>)
    requires Shaped(s1) && Shaped(s2) && s2.width >= s1.width
    requires acc == Concat(VerticalRows(s1, s2, b)[..s1.height])
    ensures acc + s2.pixels[0..|s2.pixels|] == Concat(VerticalRows(s1, s2, b))
  {
    assert s2.pixels[0..|s2.pixels|] == s2.pixels;
    ConcatSplit(VerticalRows(s1, s2, b), s1.height);
    VerticalTail(s1, s2, b);
  }

  /** Above the rows of the narrower second image come the first image's pixels unchanged. */
  lemma WiderFirstHead(s1: ImageState, s2: ImageState, b: PixelValue)
    requires Shaped(s1) && Shaped(s2) && s1.width >= s2.width
    ensures [] + s1.pixels[0..|s1.pixels|] == Concat(VerticalRows(s1, s2, b)[..s1.height])
  {
    assert [] + s1.pixels[0..|s1.pixels|] == s1.pixels;
    VerticalHead(s1, s2, b);
  }

  /**
   * Collage row `k` is row `i` of an image `s` narrower than the collage
   * width `total`, between `left` and `right` black pixels.
   */
  lemma NarrowRowStep(s1: ImageState, s2: ImageState, b: PixelValue, k: nat, s: ImageState, i: nat, left: nat, right: nat,
                      acc: seq<PixelValue>)
    requires Shaped(s1) && Shaped(s2) && k < s1.height + s2.height
    requires (k < s1.height && s == s1 && i == k) || (k >= s1.height && s == s2 && i == k - s1.height)
    requires left == PadBefore(s.width, Max(s1.width, s2.width)) && right == PadAfter(s.width, Max(s1.width, s2.width))
    requires acc == Concat(VerticalRows(s1, s2, b)[..k])
    ensures 0 <= i * s.width && i * s.width + s.width <= |s.pixels|
    ensures acc + Blacks(b, left) + s.pixels[i * s.width..i * s.width + s.width] + Blacks(b, right)
         == Concat(VerticalRows(s1, s2, b)[..k + 1])
  {
    RowAt(s.pixels, s.width, s.height, i);
    var rows := VerticalRows(s1, s2, b);
    var x, y, z := Blacks(b, left), s.pixels[i * s.width..i * s.width + s.width], Blacks(b, right);
    assert rows[k] == VerticalCollageRow(s1, s2, b, k);
    assert rows[k] == x + y + z;
    ConcatSnoc(rows, k);
    AppendAssoc(acc, x, y);
    AppendAssoc(acc, x + y, z);
  }

  /** One row of the loops below: `left` black pixels, row `i` of the narrower image `s`, `right` black pixels. */
  method NarrowRow(s1: ImageState, s2: ImageState, b: PixelValue, k: nat, s: ImageState, i: nat, left: nat, right: nat,
                   acc: seq<PixelValue>) returns (pixels: seq<PixelValue>)
    requires Shaped(s1) && Shaped(s2) && k < s1.height + s2.height
    requires (k < s1.height && s == s1 && i == k) || (k >= s1.height && s == s2 && i == k - s1.height)
    requires left == PadBefore(s.width, Max(s1.width, s2.width)) && right == PadAfter(s.width, Max(s1.width, s2.width))
    requires acc == Concat(VerticalRows(s1, s2, b)[..k])
    ensures pixels == Concat(VerticalRows(s1, s2, b)[..k + 1])
  {
    NarrowRowStep(s1, s2, b, k, s, i, left, right, acc);
    pixels := AppendBlacks(acc, b, left);
    pixels := AppendRange(pixels, s.pixels, i * s.width, s.width);
    pixels := AppendBlacks(pixels, b, right);
  }

  /**
   * The second image wider by `diff`: each row of the first image between
   * black side bands, then all pixels of the second (Image/Image.cpp:590-624).
   */
  method VerticalWiderSecond(s1: ImageState, s2: ImageState, b: PixelValue, diff: nat) returns (pixels: seq<PixelValue>)
    requires Shaped(s1) && Shaped(s2) && diff == s2.width - s1.width > 0
    ensures pixels == Concat(VerticalRows(s1, s2, b))
  {
    var left, right := diff / 2, diff / 2;
    if diff % 2 != 0 {
      right := right + 1;
    }
    assert left == PadBefore(s1.width, s2.width) && right == PadAfter(s1.width, s2.width);
    pixels := [];
    for i := 0 to s1.height
      invariant pixels == Concat(VerticalRows(s1, s2, b)[..i])
    {
      pixels := NarrowRow(s1, s2, b, i, s1, i, left, right, pixels);
    }
    WiderSecondTail(s1, s2, b, pixels);
    pixels := AppendRange(pixels, s2.pixels, 0, |s2.pixels|);
  }

  /** The first image wider by `diff`: the mirror image of the branch above (Image/Image.cpp:625-657). */
  method VerticalWiderFirst(s1: ImageState, s2: ImageState, b: PixelValue, diff: nat) returns (pixels: seq<PixelValue>)
    requires Shaped(s1) && Shaped(s2) && diff == s1.width - s2.width > 0
    ensures pixels == Concat(VerticalRows(s1, s2, b))
  {
    var left, right := diff / 2, diff / 2;
    if diff % 2 != 0 {
      right := right + 1;
    }
    assert left == PadBefore(s2.width, s1.width) && right == PadAfter(s2.width, s1.width);
    pixels := [];
    pixels := AppendRange(pixels, s1.pixels, 0, |s1.pixels|);
    WiderFirstHead(s1, s2, b);
    pixels := NarrowTail(s1, s2, b, left, right, pixels);
  }

  /** One pass of the loop of Image/Image.cpp:643-656: row `i` of the narrower second image appends collage row `h1 + i`. */
  method NarrowRowOfSecond(s1: ImageState, s2: ImageState, b: PixelValue, i: nat, left: nat, right: nat, acc: seq<PixelValue>)
    returns (pixels: seq<PixelValue>)
    requires Shaped(s1) && Shaped(s2) && s1.width >= s2.width && i < s2.height
    requires left == PadBefore(s2.width, Max(s1.width, s2.width)) && right == PadAfter(s2.width, Max(s1.width, s2.width))
    requires acc == Concat(VerticalRows(s1, s2, b)[..s1.height + i])
    ensures pixels == Concat(VerticalRows(s1, s2, b)[..s1.height + i + 1])
  {
    pixels := NarrowRow(s1, s2, b, s1.height + i, s2, i, left, right, acc);
  }

  /** The loop of Image/Image.cpp:643-656: each row of the narrower second image between its black side bands. */
  method NarrowTail(s1: ImageState, s2: ImageState, b: PixelValue, left: nat, right: nat, acc: seq<PixelValue>)
    returns (pixels: seq<PixelValue>)
    requires Shaped(s1) && Shaped(s2) && s1.width >= s2.width
    requires left == PadBefore(s2.width, Max(s1.width, s2.width)) && right == PadAfter(s2.width, Max(s1.width, s2.width))
    requires acc == Concat(VerticalRows(s1, s2, b)[..s1.height])
    ensures pixels == Concat(VerticalRows(s1, s2, b))
  {
    pixels := acc;
    for i := 0 to s2.height
      invariant pixels == Concat(VerticalRows(s1, s2, b)[..s1.height + i])
    {
      pixels := NarrowRowOfSecond(s1, s2, b, i, left, right, pixels);
    }
    assert VerticalRows(s1, s2, b)[..s1.height + s2.height] == VerticalRows(s1, s2, b);
  }

  /** The rows of a horizontal collage, by the three cases of the source (Image/Image.cpp:455-566). */
  method JoinHorizontally(s1: ImageState, s2: ImageState, b: PixelValue) returns (height: nat, pixels: seq<PixelValue>)
    requires Shaped(s1) && Shaped(s2)
    ensures height == Max(s1.height, s2.height)
    ensures pixels == Concat(HorizontalRows(s1, s2, b))
  {
    var heightDifference: int := s1.height - s2.height;
    if heightDifference == 0 {
      height := s1.height;
      pixels := HorizontalEqual(s1, s2, b);
    } else if heightDifference < 0 {
      heightDifference := -heightDifference;
      height := s2.height;
      pixels := HorizontalTallerSecond(s1, s2, b, heightDifference);
    } else {
      height := s1.height;
      pixels := HorizontalTallerFirst(s1, s2, b, heightDifference);
    }
  }

  /** The rows of a vertical collage, by the three cases of the source (Image/Image.cpp:568-659). */
  method JoinVertically(s1: ImageState, s2: ImageState, b: PixelValue) returns (width: nat, pixels: seq<PixelValue>)
    requires Shaped(s1) && Shaped(s2)
    ensures width == Max(s1.width, s2.width)
    ensures pixels == Concat(VerticalRows(s1, s2, b))
  {
    var widthDifference: int := s1.width - s2.width;
    if widthDifference == 0 {
      width := s1.width;
      pixels := VerticalEqual(s1, s2, b);
    } else if widthDifference < 0 {
      widthDifference := -widthDifference;
      width := s2.width;
      pixels := VerticalWiderSecond(s1, s2, b, widthDifference);
    } else {
      width := s1.width;
      pixels := VerticalWiderFirst(s1, s2, b, widthDifference);
    }
  }

  lemma HorizontalCollageFields(s1: ImageState, s2: ImageState)
    requires s1.Valid() && s2.Valid()
    ensures (MulMonotone(1, s1.height, s1.width);
      HorizontalCollage(s1, s2) == CollageHeader(s1, s2).(width := ToUShort(s1.width + s2.width),
        height := Max(s1.height, s2.height), pixels := Concat(HorizontalRows(s1, s2, BlackPixel(s1)))))
  {
  }

  lemma VerticalCollageFields(s1: ImageState, s2: ImageState)
    requires s1.Valid() && s2.Valid()
    ensures (MulMonotone(1, s1.height, s1.width);
      VerticalCollage(s1, s2) == CollageHeader(s1, s2).(width := Max(s1.width, s2.width),
        height := ToUShort(s1.height + s2.height), pixels := Concat(VerticalRows(s1, s2, BlackPixel(s1)))))
  {
  }

  /**
   * The body of `makeCollage` on the two images' states: the header
   * fields, the padding pixel, then the joined pixels of the chosen
   * orientation.
   */
  method CollageOf(orientation: string, s1: ImageState, s2: ImageState) returns (c: ImageState)
    requires s1.Valid() && s2.Valid()
    ensures c == Collage(orientation, s1, s2)
  {
    var path := BaseName(s1.filePath) + "_" + BaseName(s2.filePath);
    var magic := "P";
    if s1.fileExtension == ".pbm" {
      magic := "P1";
    } else if s1.fileExtension == ".pgm" {
      magic := "P2";
    } else if s1.fileExtension == ".ppm" {
      magic := "P3";
    }
    assert magic == CollageMagic(s1.fileExtension);

    MulMonotone(1, s1.height, s1.width);
    var blackPixel: PixelValue;
    if s1.fileExtension == ".pbm" {
      blackPixel := PixelValue(1, 1, 1, 1);
    } else {
      blackPixel := PixelValue(s1.pixels[0].maxValue, 0, 0, 0);
    }
    assert blackPixel == BlackPixel(s1);

    var width, height, pixels := 0, 0, [];
    if orientation == "horizontal" {
      width := ToUShort(s1.width + s2.width);
      height, pixels := JoinHorizontally(s1, s2, blackPixel);
      HorizontalCollageFields(s1, s2);
    } else if orientation == "vertical" {
      height := ToUShort(s1.height + s2.height);
      width, pixels := JoinVertically(s1, s2, blackPixel);
      VerticalCollageFields(s1, s2);
    }
    c := ImageState(magic, path, s1.fileExtension, width, height, pixels, 0);
  }

  /**
   * `makeCollage(orientation, img1, img2)`: a fresh image whose state is
   * the collage of the two images' states.
   */
  method MakeCollage(orientation: string, img1: Image, img2: Image) returns (collage: Image)
    requires img1.Valid() && img2.Valid()
    ensures fresh(collage)
    ensures collage.Value() == Collage(orientation, img1.Value(), img2.Value())
  {
    var s1, s2 := img1.Value(), img2.Value();
    var c := CollageOf(orientation, s1, s2);
    assert c == ImageState(c.magicNumber, c.filePath, c.fileExtension, c.width, c.height, c.pixels, c.commandsToSkip);
    collage := new Image.Default();
    collage.magicNumber, collage.filePath, collage.fileExtension := c.magicNumber, c.filePath, c.fileExtension;
    collage.width, collage.height, collage.pixels, collage.commandsToSkip := c.width, c.height, c.pixels, c.commandsToSkip;
    assert collage.Value() == c;
    assert img1.Value() == s1;
    assert img2.Value() == s2;
  }
}
