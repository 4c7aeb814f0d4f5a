# Netpbm image editor: pixels, images and the editing session

A Dafny model of the core of a small plain-text Netpbm editor for PBM, PGM and PPM files. The model covers three parts.

- **The pixel** (`Pixels`, from Pixel/Pixel.cpp). It is a ceiling and three channels, stored as `unsigned short`s. Its setters reject out-of-range input and keep the old state. `PixelValue` is the value a pixel vector holds. `class Pixel` is the object whose setters overwrite its fields.
- **The image** (`class Image` in `Images`, from Image/Image.cpp). It is a row-major grid of pixels.
  - The photometric transforms are negative, monochrome and grayscale.
  - The geometric transforms are the two rotations and the two flips.
  - `crop` copies a rectangle whose y coordinates count from the bottom.
  - `makeCollage` joins two images with centred black padding.
  - The loaders decode the text lines of a file by decimal digit accumulation.

  Every method is proved to leave the object in the state that a function of `ImageSpec`, `CollageSpec` or `Loading` computes from the old state. The laws are then proved about those functions:
  - involutions and inverse rotations;
  - cell laws for every transform;
  - validity is kept;
  - the size laws of crop and collage;
  - reading back what the writer prints gives the value back.
- **The session** (`class Session` in `Sessions`, from Session/Session.cpp). It holds a queue of pending commands with four side vectors:
  - the crop coordinates;
  - the collage indices;
  - a history copy of each, for undo and redo.

  `addCommand` applies its cancellation rules. `undo` and `redo` move entries between the vectors. `execute` replays the queue on every image from that image's skip offset, then saves one collage per pair of queued indices. Each method is proved against a function of `SessionSpec`. The laws proved about those functions include:
  - undo and redo are mutual inverses;
  - the side vectors stay in step with the queue;
  - three turns one way make one turn the other way;
  - a flip asked for twice cancels;
  - the queued collage indices are the first matching images.

`Grid` holds the row-major index arithmetic shared by the transforms. `Codec` holds the one-line text decoders and encoders. `Collages` builds the collage by the source's own branches and loops.

C++ `unsigned short` arithmetic is written out as `% 65536` wherever it can wrap:
- digit accumulation;
- the sum of the two widths or heights in a collage;
- the skip offset of an added image;
- the stored crop coordinates and collage indices.

## Model

| member | source | states |
|---|---|---|
| Pixels.ToUShort | Pixel/Pixel.h:12-17 | storing an integer in an `unsigned short` keeps it modulo 2^16: values in range are kept, values one wrap above lose 65536 |
| Pixels.ToShort | Pixel/Pixel.cpp:65-83 | the `short` getters read an `unsigned short` as a value in [-32768, 32767] congruent to it modulo 2^16, unchanged below 32768 |
| Pixels.Pixel.Default | Pixel/Pixel.cpp:3 | `Pixel()` is (0,0,0,0), so every channel is within the ceiling even though the ceiling is 0 |
| Pixels.Pixel.constructor | Pixel/Pixel.cpp:5-9 | the ceiling is set first and kept when it lies in [1,255]; when the channels then fit under it the pixel is exactly the arguments, valid, and the getters return the arguments |
| Pixels.Pixel.Assign | Pixel/Pixel.cpp:13-23 | after `a = b` all four fields of `a` equal those of `b`, and `b` is untouched |
| Pixels.Pixel.Equals | Pixel/Pixel.cpp:25-28 | `==` holds exactly when all four fields agree |
| Pixels.Pixel.NotEquals | Pixel/Pixel.cpp:30-33 | `!=` holds exactly when the values differ, the negation of `==` |
| Pixels.Pixel.SetMaxValue | Pixel/Pixel.cpp:35-45 | the ceiling is stored if and only if it lies in [1,255], otherwise it is unchanged; the channels never change |
| Pixels.Pixel.SetValues | Pixel/Pixel.cpp:47-63 | all-or-nothing: the three channels are stored if and only if each is at most the ceiling, otherwise the pixel is unchanged |
| Pixels.Pixel.GetMaxValue | Pixel/Pixel.cpp:65-68 | the ceiling read as a `short` lies in [-32768, 32767], is congruent to the stored ceiling modulo 2^16, and equals it below 32768 |
| Pixels.Pixel.GetRValue | Pixel/Pixel.cpp:70-73 | the red channel read as a `short` lies in [-32768, 32767], is congruent to the stored value modulo 2^16, and equals it below 32768 |
| Pixels.Pixel.GetGValue | Pixel/Pixel.cpp:75-78 | the green channel read as a `short` lies in [-32768, 32767], is congruent to the stored value modulo 2^16, and equals it below 32768 |
| Pixels.Pixel.GetBValue | Pixel/Pixel.cpp:80-83 | the blue channel read as a `short` lies in [-32768, 32767], is congruent to the stored value modulo 2^16, and equals it below 32768 |
| Grid.DivModOfCell | Image/Image.cpp:326-341 | the cell at row `r`, column `c` of a row-major grid sits at `r * cols + c`, and division and remainder recover `r` and `c` |
| Grid.CellOfIndex | Image/Image.cpp:335-341 | every index of a `rows x cols` vector names a cell inside the grid |
| Grid.SameCells | Image/Image.cpp:335-341 | two grids of one shape that agree on every cell are equal |
| Grid.ConcatAt | Image/Image.cpp:335-341 | rows of equal length written one after the other form a grid whose cell (r, c) is column c of row r |
| Grid.ConcatRows | Image/Image.cpp:139-150 | writing the rows of a grid one after the other gives the grid back |
| ImageSpec.NegativePixelLaws | Image/Image.cpp:287-292 | on a valid pixel each channel becomes `max - c`, the ceiling is kept, the pixel stays valid and negating twice gives it back |
| ImageSpec.NegativeInvolution | Image/Image.cpp:280-295 | `toNegative` keeps the sizes and validity and is an involution, in every format |
| ImageSpec.MonochromeLaws | Image/Image.cpp:254-278 | a bitmap is unchanged; otherwise every pixel keeps its ceiling and becomes all-ceiling exactly when its integer channel average reaches half the ceiling, else all-zero, so with ceiling 1 every pixel becomes 1 |
| ImageSpec.GrayscaleLaws | Image/Image.cpp:235-252 | bitmaps and graymaps are unchanged; a pixmap pixel keeps its ceiling and gets equal channels, the gray value; the image stays valid |
| ImageSpec.RotatedLeftAt | Image/Image.cpp:319-344 | `rotateLeft` yields a `w x h` grid with new(r, c) = old(c, w-1-r) |
| ImageSpec.RotatedRightAt | Image/Image.cpp:345-370 | `rotateRight` yields a `w x h` grid with new(r, c) = old(h-1-c, r) |
| ImageSpec.FlippedHorizontallyAt | Image/Image.cpp:372-395 | `flipHorizontal` gives new(r, c) = old(r, w-1-c) |
| ImageSpec.FlippedVerticallyAt | Image/Image.cpp:396-419 | `flipVertical` gives new(r, c) = old(h-1-r, c) |
| ImageSpec.RotatedLeftDrawsFrom | Image/Image.cpp:326-341 | every pixel after `rotateLeft` is one of the old pixels |
| ImageSpec.RotatedRightDrawsFrom | Image/Image.cpp:352-367 | every pixel after `rotateRight` is one of the old pixels |
| ImageSpec.FlippedHorizontallyDrawsFrom | Image/Image.cpp:377-392 | every pixel after `flipHorizontal` is one of the old pixels |
| ImageSpec.FlippedVerticallyDrawsFrom | Image/Image.cpp:401-416 | every pixel after `flipVertical` is one of the old pixels |
| ImageSpec.GeometricKeepValid | Image/Image.cpp:319-419 | the four geometric transforms keep an image valid, and the rotations swap width and height |
| ImageSpec.RotateRightUndoesLeft | Image/Image.cpp:319-370 | `rotateRight` after `rotateLeft` restores pixels, width and height |
| ImageSpec.RotateLeftUndoesRight | Image/Image.cpp:319-370 | `rotateLeft` after `rotateRight` restores pixels, width and height |
| ImageSpec.FlipHorizontalInvolution | Image/Image.cpp:372-395 | `flipHorizontal` twice is the identity |
| ImageSpec.FlipVerticalInvolution | Image/Image.cpp:396-419 | `flipVertical` twice is the identity |
| ImageSpec.NormalizedRect | Image/Image.cpp:669-693 | after clamping to the last row and column and swapping, the corners satisfy xTL <= xBR and yBR <= yTL |
| ImageSpec.NormalizedFits | Image/Image.cpp:669-698 | the clamped, ordered rectangle is either refused or lies inside the image |
| ImageSpec.CroppedPixelsAt | Image/Image.cpp:699-711 | the copied grid has cell new(i, j) = old(h - yTL + i, xTL + j) |
| ImageSpec.CroppedCells | Image/Image.cpp:699-711 | every cell of the copied grid is the rectangle's cell of the old grid, and valid pixels stay valid |
| ImageSpec.CropLaws | Image/Image.cpp:665-716 | `crop` keeps an image valid; it leaves it unchanged exactly when the rectangle is degenerate; otherwise the new size is (xBR-xTL) x (yTL-yBR), with 1 <= newW <= W-1 and 1 <= newH <= H-1, and the cell law holds |
| ImageSpec.CroppedShape | Image/Image.cpp:699-715 | an accepted rectangle yields a valid image that differs from the old one |
| ImageSpec.CropCornerOrder | Image/Image.cpp:686-693 | any two opposite corners, given in any order, select the same crop |
| CollageSpec.BaseNameSuffix | Image/Image.cpp:427 | the base name is the suffix after the last backslash: a suffix of the path, free of backslashes, preceded by one unless it is the whole path |
| CollageSpec.PadAfter | Image/Image.cpp:480-488 | the padding before, the extent and the padding after fill the band, and the padding after is d/2 or d/2 + 1 |
| CollageSpec.HorizontalRows | Image/Image.cpp:455-566 | a horizontal collage has max(h1, h2) rows, each w1 + w2 pixels wide |
| CollageSpec.VerticalRows | Image/Image.cpp:568-659 | a vertical collage has h1 + h2 rows, each max(w1, w2) pixels wide |
| CollageSpec.Collage | Image/Image.cpp:421-663 | an unknown orientation leaves an empty header; in every orientation the extension comes from the first image, the magic number is `P` and the first image's format digit (`P` alone for an unknown extension), and the skip offset is 0 |
| CollageSpec.BlackPixelValid | Image/Image.cpp:444-453 | the padding pixel is one the validating constructor accepts |
| CollageSpec.HorizontalCollagePixels | Image/Image.cpp:455-566 | a horizontal collage holds max(h1, h2) times (w1 + w2) pixels, all valid |
| CollageSpec.VerticalCollagePixels | Image/Image.cpp:568-659 | a vertical collage holds (h1 + h2) times max(w1, w2) pixels, all valid |
| CollageSpec.HorizontalCollageLaws | Image/Image.cpp:455-566 | the width is w1 + w2 as an `unsigned short`, the height max(h1, h2), and there are max(h1, h2) times the unwrapped w1 + w2 pixels; the collage is valid exactly when the width does not wrap |
| CollageSpec.VerticalCollageLaws | Image/Image.cpp:568-659 | the height is h1 + h2 as an `unsigned short`, the width max(w1, w2), and there are the unwrapped h1 + h2 times max(w1, w2) pixels; the collage is valid exactly when the height does not wrap |
| CollageSpec.HorizontalPartAt | Image/Image.cpp:480-565 | one image's part of a horizontal collage row is its own pixel where it is centred, black in the bands above and below |
| CollageSpec.VerticalRowAt | Image/Image.cpp:590-657 | a row of an image centred in a vertical collage is its own pixel between the left and right black bands |
| CollageSpec.HorizontalCells | Image/Image.cpp:455-566 | every collage cell left of the seam is the first image's, right of it the second's; each image sits d/2 rows down, with black above and below |
| CollageSpec.VerticalCells | Image/Image.cpp:568-659 | every collage cell above the seam is the first image's, below it the second's; each image sits d/2 columns in, with black left and right |
| CollageSpec.FullWidthRows | Image/Image.cpp:573-586 | an image as wide as the collage fills its rows with no side bands |
| CollageSpec.VerticalHead | Image/Image.cpp:625-657 | the rows of a wider (or equally wide) first image are its pixels unchanged |
| CollageSpec.VerticalTail | Image/Image.cpp:590-624 | the rows of a wider (or equally wide) second image are its pixels unchanged |
| CollageSpec.VerticalEqualWidths | Image/Image.cpp:573-586 | equal widths give plain concatenation: the first image's pixels, then the second's |
| Codec.CString | Image/Image.cpp:62-69 | the text a C buffer holds: a prefix of the line without NUL, the whole line when it has none |
| Codec.DigitStep | Image/Image.cpp:75 | one step of `(v *= 10) += c - 48` stays an `unsigned short` |
| Codec.ParseNumberIsDecimalModulo | Image/Image.cpp:72-83 | on decimal digits the accumulation computes the decimal value modulo 2^16 |
| Codec.Decimal | Image/Image.cpp:129 | the writer prints a non-empty digit string, free of spaces and NUL, whose decimal value is the number |
| Codec.DecimalRoundTrip | Image/Image.cpp:129 | accumulating the digits the writer printed gives back any `unsigned short` |
| Codec.DecimalLength | Image/Image.cpp:129 | numbers below 10, 100, ..., 100000 print in at most 1, 2, ..., 5 digits |
| Codec.Fields | Image/Image.cpp:173-187 | a bitmap or graymap row splits into one more field than it has spaces, none holding a space |
| Codec.FieldsOfJoin | Image/Image.cpp:139-150 | splitting fields joined by single spaces gives the fields back |
| Codec.NonEmpty | Image/Image.cpp:202-218 | the numbers of a pixmap line are its non-empty space-free runs |
| Codec.ParseDimensions | Image/Image.cpp:72-83 | width and height accumulate from before and after the first space, each an `unsigned short` |
| Codec.DimensionsRoundTrip | Image/Image.cpp:72-83 | decoding the dimensions line the writer printed at line 129 gives the width and height back |
| Codec.ParseMaxValue | Image/Image.cpp:96-101 | the ceiling line accumulates to its decimal value modulo 2^16 |
| Codec.DecodeGrayRow | Image/Image.cpp:165-190 | each field of a row gives one valid pixel with r = g = b = the field's value under the given ceiling, one pixel per field |
| Codec.GrayRowRoundTrip | Image/Image.cpp:139-150 | a bitmap or graymap row the writer printed decodes to the same pixels |
| Codec.JoinSpacesLength | Image/Image.cpp:169 | fields of at most k characters joined by spaces take at most (k+1) times the number of fields, less one, characters |
| Codec.DecodePixmapLine | Image/Image.cpp:192-224 | a pixmap line gives one valid pixel under the ceiling, its channels the line's first three numbers, 0 where the line has fewer |
| Codec.PixmapLineTokens | Image/Image.cpp:157 | the line the writer prints for a pixmap pixel holds its three channel decimals in order |
| Codec.PixmapLineRoundTrip | Image/Image.cpp:157 | a pixmap line the writer printed decodes to the same pixel |
| Loading.StemOf | Image/Image.cpp:50-52 | the stored path is the input path without its last four characters |
| Loading.ExtensionOf | Image/Image.cpp:53 | the extension is the last four characters, and path = stem + extension |
| Loading.GrayRows | Image/Image.cpp:165-190 | every pixel loaded from bitmap or graymap rows has equal channels under the ceiling |
| Loading.PixmapPixels | Image/Image.cpp:192-224 | a pixmap loads one valid pixel per line under the ceiling |
| Loading.PixmapPixelsSnoc | Image/Image.cpp:195-221 | decoding one more line appends its pixel |
| Loading.GrayRowsLength | Image/Image.cpp:165-190 | rows of `w` fields each load `w` pixels per row |
| Loading.LoadedValid | Image/Image.cpp:41-113 | a loaded image with positive sizes, whose rows hold `width` fields, is valid |
| Loading.PixmapLoadedPixels | Image/Image.cpp:192-224 | a pixmap loads `width * height` valid pixels |
| Loading.GrayLoadedPixels | Image/Image.cpp:165-190 | a bitmap or graymap whose rows hold `width` fields loads `width * height` valid pixels |
| Loading.GrayLineRoundTrip | Image/Image.cpp:139-150 | each row the writer prints for a bitmap or graymap decodes to that row of the image |
| Loading.GrayRowsOfRows | Image/Image.cpp:165-190 | rows that each decode to the matching row of a grid load back as that grid's prefix |
| Loading.GrayLineFits | Image/Image.cpp:169 | every row the writer prints fits the `4 * width` buffer |
| Loading.PixmapLineLength | Image/Image.cpp:197 | every pixmap line the writer prints fits the 27-character buffer |
| Loading.PixmapLinesLoad | Image/Image.cpp:153-158 | the pixmap lines the writer prints fit their buffers and load back as the image's pixels |
| Loading.GrayLinesLoad | Image/Image.cpp:133-151 | the bitmap or graymap rows the writer prints fit their buffers and load back as the image's pixels |
| Loading.LoadInvertsSave | Image/Image.cpp:117-160 | loading the lines the writer prints, with the image's own path, gives back magic number, path, extension, sizes and every pixel |
| Images.Flatten | Image/Image.cpp:335-341 | pushing back a temporary grid row by row gives the row-major vector of its cells |
| Images.CopyRect | Image/Image.cpp:702-711 | the copy loop of `crop` builds exactly the cropped grid |
| Images.CropReadIndex | Image/Image.cpp:704-709 | every index read at line 709 is inside the pixel vector and reads the next cell of the cropped grid |
| Images.Image.Default | Image/Image.cpp:5 | `Image()` has empty strings, zero sizes, no pixels and skip offset 0 |
| Images.Image.Load | Image/Image.cpp:41-113 | `Image(filePath)` through `loadImage`: path and extension are split off even for a rejected extension, which loads no pixels; an accepted file loads the image `Loaded` describes |
| Images.Image.LoadPBMAndPGM | Image/Image.cpp:165-190 | appends the decoded rows, `height` of them |
| Images.Image.LoadPPM | Image/Image.cpp:192-224 | appends one decoded pixel per line, `height * width` of them |
| Images.Image.ToNegative | Image/Image.cpp:280-295 | the new state is the negative of the old one |
| Images.Image.ToMonochrome | Image/Image.cpp:254-278 | the new state is the monochrome image of the old one |
| Images.Image.ToGrayscale | Image/Image.cpp:235-252 | the new state is the grayscale image of the old one |
| Images.Image.TakeForRotateLeft | Image/Image.cpp:326-333 | erasing from the front fills the temporary grid column by column, bottom row first, and empties the vector |
| Images.Image.TakeForRotateRight | Image/Image.cpp:352-359 | erasing from the front fills the grid from the last column, top row first |
| Images.Image.TakeForFlipHorizontal | Image/Image.cpp:377-384 | erasing from the front fills each row from its last column |
| Images.Image.TakeForFlipVertical | Image/Image.cpp:401-408 | erasing from the front fills the rows from the bottom up |
| Images.Image.RotateLeft | Image/Image.cpp:319-344 | the new state is the old one rotated left |
| Images.Image.RotateRight | Image/Image.cpp:345-370 | the new state is the old one rotated right |
| Images.Image.FlipHorizontal | Image/Image.cpp:372-395 | the new state is the old one flipped horizontally |
| Images.Image.FlipVertical | Image/Image.cpp:396-419 | the new state is the old one flipped vertically |
| Images.Image.Crop | Image/Image.cpp:665-716 | the new state is the old one cropped to the clamped, ordered rectangle, or unchanged when it is degenerate |
| Collages.AppendRange | Image/Image.cpp:461-476 | pushing back `n` pixels from `start` appends that slice |
| Collages.AppendBlacks | Image/Image.cpp:491-500 | pushing back `n` black pixels appends `n` copies of the padding pixel |
| Collages.CentredPart | Image/Image.cpp:491-520 | the source's band tests pick black exactly in the top and bottom bands, and the image's own row between them |
| Collages.HorizontalEqual | Image/Image.cpp:461-476 | with equal heights, row after row the first image's row then the second's builds the horizontal collage |
| Collages.TallerSecondRow | Image/Image.cpp:489-523 | one pass of the loop appends collage row `i` |
| Collages.HorizontalTallerSecond | Image/Image.cpp:480-524 | with the second image taller, the loop builds the horizontal collage |
| Collages.TallerFirstRow | Image/Image.cpp:534-564 | one pass of the loop appends collage row `i` |
| Collages.HorizontalTallerFirst | Image/Image.cpp:525-565 | with the first image taller, the loop builds the horizontal collage |
| Collages.VerticalEqual | Image/Image.cpp:573-586 | with equal widths, all of the first image's pixels then the second's build the vertical collage |
| Collages.NarrowRow | Image/Image.cpp:594-612 | left padding, a row of the narrower image and right padding append collage row `k` |
| Collages.VerticalWiderSecond | Image/Image.cpp:590-624 | with the second image wider, the loops build the vertical collage |
| Collages.VerticalWiderFirst | Image/Image.cpp:625-657 | with the first image wider, the loops build the vertical collage |
| Collages.JoinHorizontally | Image/Image.cpp:455-566 | the three branches give height max(h1, h2) and the horizontal collage's rows |
| Collages.JoinVertically | Image/Image.cpp:568-659 | the three branches give width max(w1, w2) and the vertical collage's rows |
| Collages.CollageOf | Image/Image.cpp:421-663 | the body of `makeCollage` computes the collage of the two images' states |
| Collages.MakeCollage | Image/Image.cpp:421-663 | `makeCollage` returns a fresh image whose state is the collage of the two images |
| SessionSpec.CountPositive | Session/Session.cpp:361-372 | a command is pending exactly when `occurances` counts it at least once |
| SessionSpec.WithoutLaws | Session/Session.cpp:374-384 | erasing every match leaves none, keeps the count of every other command, and changes nothing when there is no match |
| SessionSpec.WithoutFirstAt | Session/Session.cpp:386-396 | erasing the first match cuts exactly that index out, keeping the others in order |
| SessionSpec.WithoutFirstLaws | Session/Session.cpp:386-396 | erasing the first match removes exactly one match when there is one, keeps every other count, and changes nothing otherwise |
| SessionSpec.KnownTexts | Session/Session.cpp:105-178 | each of the ten command texts is recognised as its own request |
| SessionSpec.AddedNoRepeats | Session/Session.cpp:105-183 | whatever the text, grayscale, monochrome and each flip stay pending at most once |
| SessionSpec.AddedIgnores | Session/Session.cpp:105-114 | an unknown text, or grayscale or monochrome already pending, leaves the queue unchanged |
| SessionSpec.ThreeLeftsMakeOneRight | Session/Session.cpp:115-140 | on a queue without left turns and at most one right turn, three "rotate left" give the same queue as one "rotate right", which appends a right turn |
| SessionSpec.ThreeRightsMakeOneLeft | Session/Session.cpp:115-140 | the mirror law: three "rotate right" give the same queue as one "rotate left" |
| SessionSpec.FlipsToggle | Session/Session.cpp:141-162 | asking for the same flip twice on a queue without it gives the queue back |
| SessionSpec.RedoUndoes | Session/Session.cpp:233-289 | `redo` right after `undo` restores all six vectors |
| SessionSpec.UndoUndoesRedo | Session/Session.cpp:233-289 | `undo` right after `redo` restores all six vectors |
| SessionSpec.UndoKeepsBalance | Session/Session.cpp:233-260 | with at least four coordinates per pending crop and two indices per pending collage, in the queue and in the undone list, `undo` never reads past a vector and keeps that balance; with exactly four and two (lock-step) it keeps the lock-step, so a crop moves four coordinates and a collage two indices |
| SessionSpec.RedoKeepsBalance | Session/Session.cpp:262-289 | likewise `redo` never reads past a history vector, keeps the balance, and keeps the exact lock-step |
| SessionSpec.CropRequestKeepsBalance | Session/Session.cpp:175-177 | a crop command with its four coordinates keeps the balance and the exact lock-step |
| SessionSpec.CollageRequestKeepsBalance | Session/Session.cpp:167-174 | a collage command with its two indices keeps the balance and the exact lock-step |
| SessionSpec.ExecuteKeepsBalance | Session/Session.cpp:88-102 | the vectors `execute` leaves, with the queue emptied and only a lone collage index left, are balanced again |
| SessionSpec.LoneCollageIndexBreaksUndo | Session/Session.cpp:219-230 | with one image named `a`, a collage of "a.ppm" with itself passes every check and queues a single index, so after the collage command the queue is unbalanced and `undo` cannot pop two indices |
| SessionSpec.Normalized | Session/Session.cpp:46-51 | the rotation clean-up keeps the count of every command other than the turns |
| SessionSpec.NormalizedLaws | Session/Session.cpp:46-51 | the clean-up is idempotent and keeps the net number of left turns |
| SessionSpec.DropStep | Session/Session.cpp:54 | stepping past index `j` takes `commands[j]` out of the tail's count |
| SessionSpec.Apply | Session/Session.cpp:56-85 | one arm of the switch keeps the image valid |
| SessionSpec.ReplayFrom | Session/Session.cpp:53-86 | the command loop from the skip offset keeps the image valid |
| SessionSpec.AddedImageSkipsPending | Session/Session.cpp:185-190 | an image added while commands are pending skips all of them: `execute` leaves it unchanged |
| SessionSpec.ReplayCancels | Session/Session.cpp:56-78 | a left turn then a right turn, or the same flip twice, gives the image back |
| SessionSpec.Replayed | Session/Session.cpp:44-86 | every image is replayed and stays valid, with the number of images unchanged |
| SessionSpec.SavedCollages | Session/Session.cpp:89-101 | the collage loop saves one image per pair of queued indices |
| SessionSpec.SavedCollageAt | Session/Session.cpp:89-101 | the k-th saved image is the pending collage of the images at indices 2k and 2k+1 |
| SessionSpec.SavedCollagesSamePending | Session/Session.cpp:92-96 | which collages are saved depends only on which collage commands are pending |
| SessionSpec.NormalizedKeepsCollages | Session/Session.cpp:46-51 | the clean-up leaves the pending collage commands alone |
| SessionSpec.MatchIndicesLaws | Session/Session.cpp:223-230 | the indices found below `n` are exactly the images named by either stem, ascending |
| SessionSpec.QueuedIndicesStop | Session/Session.cpp:223 | the search may stop at two matches: they are the indices it queues |
| SessionSpec.QueuedIndicesMatch | Session/Session.cpp:223-230 | `queueForCollage` pushes at most two ascending indices, each of an image named by one of the stems |
| SessionSpec.QueuedIndicesFirst | Session/Session.cpp:223-230 | the pushed indices are the first matches in session order: any other match comes after both |
| SessionSpec.QueuedIndicesBoth | Session/Session.cpp:223-230 | two different stems that both name session images always give two indices |
| Sessions.ReplayCommands | Session/Session.cpp:53-86 | the command loop on one image, from its skip offset with the crop counter at 0, computes the replay |
| Sessions.MoveLastToFront | Session/Session.cpp:240-252 | `n` rounds of insert-at-front and `pop_back` move the last `n` elements, in their order, to the front of the other vector |
| Sessions.MoveFrontToBack | Session/Session.cpp:269-282 | pushing the first `n` history elements and erasing them moves them, in order, to the back of the other vector |
| Sessions.PendingCollageOf | Session/Session.cpp:89-97 | a horizontal collage when one is pending, else a vertical one, else the empty image |
| Sessions.CollagesOf | Session/Session.cpp:88-101 | the loop saves the collage of each pair of queued indices and leaves a lone last index queued |
| Sessions.SearchForCollage | Session/Session.cpp:221-230 | the search loop finds the first two images named by either stem |
| Sessions.Session.constructor | Session/Session.cpp:6 | a new session has no images, empty vectors and is not valid |
| Sessions.Session.Occurrences | Session/Session.cpp:361-372 | counts the pending commands equal to the argument |
| Sessions.Session.EraseAll | Session/Session.cpp:374-384 | removes every match and keeps the other commands in order |
| Sessions.Session.EraseFirstOccurrence | Session/Session.cpp:386-396 | removes exactly the first match, or nothing |
| Sessions.Session.AddCommand | Session/Session.cpp:105-183 | the queue afterwards is what the cancellation rules give for the text |
| Sessions.Session.AddImage | Session/Session.cpp:185-190 | the new image is appended with skip offset the queue length, as an `unsigned short` |
| Sessions.Session.Crop | Session/Session.cpp:192-198 | the four coordinates are appended in order, each as an `unsigned short` |
| Sessions.Session.ContainsImage | Session/Session.cpp:398-408 | true exactly when some session image carries the path |
| Sessions.Session.CheckCollageNames | Session/Session.cpp:202-222 | the checks in their order: two names, both stems in the session, equal 3-character extensions |
| Sessions.Session.QueueForCollage | Session/Session.cpp:200-231 | when the checks pass, the indices of the first two images named by either stem are appended; otherwise nothing changes |
| Sessions.Session.Undo | Session/Session.cpp:233-260 | the six vectors afterwards are `undo` of the old ones, unchanged on an empty queue |
| Sessions.Session.Redo | Session/Session.cpp:262-289 | the six vectors afterwards are `redo` of the old ones |
| Sessions.Session.ClearUndoneCommands | Session/Session.cpp:291-295 | the undone commands are emptied |
| Sessions.Session.CancelTurns | Session/Session.cpp:46-51 | as many left as right turns, and at least one, are all erased |
| Sessions.Session.ReplayImages | Session/Session.cpp:44-86 | each image replays the cleaned-up queue from its skip offset; with no images the queue is left as it was |
| Sessions.Session.Execute | Session/Session.cpp:38-103 | a no-op on an empty queue; otherwise it replays every image, saves one collage per pair of queued indices (horizontal preferred), keeps a lone index, leaves the crop coordinates and empties the queue |

## Where the code and its description differ

The model follows the code in each of these cases.

- **Rotation.** `rotateLeft` gives new(r, c) = old(c, w-1-r), and `rotateRight` gives new(r, c) = old(h-1-c, r), as the erase-front loops at Image/Image.cpp:326-333 and 352-359 produce.
- **Crop extents.**
  - The coordinates are clamped to the last row and column, and the extents are exclusive.
  - So a crop is at most (W-1) x (H-1), and no rectangle selects the whole image.
  - The top row and the last column can never be part of a crop.
- **`cropInfo` after `execute`.** It is never drained. Every image reads its crop rectangles from index 0.
- **The rotation clean-up.** It runs before each image, so it only has an effect before the first image. With no images it never runs.
- **Skip offsets.**
  - `execute` empties the queue but does not reset any image's skip offset.
  - The clean-up erases turns but does not shift the skip offsets.
- **`queueForCollage`.** It pushes the first two images named by either stem, in session order. With two equal names it pushes two images of that name, or only one index if there is only one such image.
- **Right turns.** "rotate left" with three or more left turns pending does nothing, so the count of one turn can reach 3 (by undo and redo, say) without being reduced.
- **Uninitialised sizes.** `Image(filePath, commandsToSkip)` (Image/Image.cpp:7-11) never initialises `width` and `height` (Image/Image.h:26-27), yet `loadImage` adds the decoded digits to them (Image/Image.cpp:75, 81). The loaded sizes are then indeterminate. The model starts the accumulation from 0, as the code evidently intends.
- **Images that failed to load.** `addImage` keeps an image whose file failed to open or had an unknown extension, and `execute` then transforms it although it has no pixels. The model's `execute` requires every image to be valid.
- **A collage request with one index.** `queueForCollage` can push fewer than two indices and still be followed by the collage command: with a single image `a`, a collage of "a.ppm" with itself passes every check and pushes one index. `undo` of that command then pops twice from a vector of one (Session/Session.cpp:250-255), which is undefined behaviour. `LoneCollageIndexBreaksUndo` states this case.
- **The collage test of `redo`.** It reads the redone command for a horizontal collage and the queue's new last command for a vertical one (Session/Session.cpp:275). Since line 266 has just pushed that command, the two are the same. The `Redo` function keeps the test as written, and `RedoUndoes` and `UndoUndoesRedo` hold with it.

## Left out

- File and stream I/O is not modelled. This covers opening files, `getline` buffering, `saveImage`'s output stream, `Session::save`, `Session::saveAs` and the `Session(filePaths)` loader.
  - The loaders take the file as its magic, dimensions, ceiling and pixel lines, already split.
  - The writer is modelled as the lines it prints.
  - There is no whole-file round trip: the writer ends lines with `"\r"` while `getline` splits on `'\n'`.
- Comment lines in a file (the `#` loops of `loadImage`) are not modelled: the magic and dimensions lines are required not to start with `#`.
- The floating-point grayscale weighting at Image/Image.cpp:247 is not modelled: `toGrayscale` takes the gray value as a function `gray` bounded by the ceiling.
- `setFilePath`'s regular expression is not modelled, because it is library behaviour.
- `getNewFileName` is not modelled, because it names files by the wall clock.
- `std::stoi` in `Session::crop` is not modelled: the method takes the four integers.
- Console output is not modelled (`printInfo`, `printImagesNames`, `printPendingTransormations` and every diagnostic). Rejections of `queueForCollage` are returned as a `CollageRequest` value, and other rejections leave the state unchanged.
- The accessors `getCommandsToSkip`, `getFilePath` and `getFileExtension` (Image/Image.cpp:15-28) are not modelled as members: each returns one field, and the model reads that field of the image state directly (`commandsToSkip`, `filePath`, `fileExtension`).
- The session id, its static counter and the `getId` and `isValid` getters are not modelled, because they are trivial global state.
- Sessions.Session.Execute: the saved collages are returned in order instead of written to files. It requires every image to be valid, which leaves out two cases:
  - an image whose file failed to open or has an unknown extension: `addImage` pushes it anyway (Session/Session.cpp:185-190), while the `Session(filePaths)` constructor drops a file that failed to open (line 14). Such an image has no pixels but indeterminate sizes, so the source's transforms can index its pixel vector out of range;
  - an image with a zero width or height. On it the rotations only swap width and height (`std::swap` at Image/Image.cpp:321 and 347), leaving the pixel vector empty. The flips and the photometric transforms do nothing. `crop` clamps the coordinates to `width - 1` and `height - 1`. For the zero size this wraps to 65535 on both corners, so the rectangle is degenerate and `crop` returns at Image/Image.cpp:694-697.
- Sessions.Session.AddImage: takes the image already loaded; `Images.Image.Load` models the load.
- Sessions.Session.Occurrences: the count is unbounded, where the source's `unsigned` counter would wrap after 2^32 matches.
- Sessions.Session.QueueForCollage: collects the indices by the search loop, then appends them in one step. A name of fewer than three characters, which makes `substr` throw, is reported as `NameTooShort`.
- Sessions.Session.Undo and Sessions.Session.Redo: require that the side vectors hold what the top command needs, where the source would read outside them. `Balanced` implies this, and it is kept by `undo`, `redo`, `execute`, a crop command with its four coordinates and a collage command with two queued indices (`UndoKeepsBalance`, `RedoKeepsBalance`, `ExecuteKeepsBalance`, `CropRequestKeepsBalance`, `CollageRequestKeepsBalance`). It is not kept when a collage request queues fewer than two indices, as `LoneCollageIndexBreaksUndo` shows, so not every session meets the requirement.
- Images.Image.Load: requires lines that fit the source's fixed buffers and hold values the ceiling admits, where the source overflows a buffer or keeps indeterminate channels. A rejected extension leaves magic number and sizes unconstrained, because the source leaves them uninitialised. Further:
  - on the accepted path the width and height accumulate from 0, where the source adds the digits to the uninitialised members (Image/Image.cpp:7-11, 75, 81);
  - it requires a path of at least four characters, where the source's `erase` at Image/Image.cpp:52 throws `std::out_of_range` on a shorter one;
  - a line is a sequence of characters, where the source counts bytes against its buffer sizes and reads each digit as `(int)buffer[i] - 48`; a line holding a non-ASCII character is not modelled byte for byte.
- Pixels.Pixel.constructor: promises nothing about a rejected ceiling or a rejected channel triple: those fields keep whatever `unsigned short` the object was born with, as in the source, where they are uninitialised.
- The session's transform helpers work on `ImageState` values: `execute`'s image loop is modelled on the images' states, and `makeCollage` on the two images' states.
