# gabiel — a verified model of the image pipeline

gabiel.py turns a picture into a "gabial" image in three steps.

1. **Mirror.** `create_mirrored_image` tiles the source and three reflections of it into a canvas twice as wide and twice as tall.
2. **Shuffle the columns.** `image_slice_rev` cuts the result into `slice_amt` vertical strips. It lays them out again by repeating one step: paste the head of the working list, pop it, and reverse the rest.
3. **Shuffle the rows.** `make_gabial` turns the image a quarter left with `rotate(90, expand=1)`, shuffles again (the strips are now the former rows) and turns back.

The script also derives the output file name from the input path.

The model is written in Dafny. Its modules are:

- `Raster` (raster.dfy): images as values, and the Pillow operations the script uses.
  - `Image.new`, `crop`, `transpose` and `rotate(±90, expand=1)` are pure functions.
  - A `Canvas` class over a 2-D array stands for an image that `paste` writes in place.
- `Results` (results.dfy): the two exceptions the core can raise, carried in a result type.
- `Mirror` (mirror.dfy): `create_mirrored_image` as a method that pastes into a `Canvas`. It is proved equal to a closed-form `Mirrored` image, and the properties are proved about that function.
- `Slicing` (slicing.dfy): `image_slice_rev` as three methods.
  - The crop loop and the pop-and-reverse paste loop are separate methods.
  - They are proved against two pure definitions: the shuffle `FoldReverse`, and its closed form `Placed(n, i)`.
  - Python's floor division and the zero-count and negative-count cases are modelled as the code behaves.
- `Gabial` (pipeline.dfy): the transformation chain of `make_gabial`, without opening, saving or showing.
- `OutputName` (output_name.dfy): the output-name expression, including the `IndexError` raised when the input has no dot.

Notes on how the model reads the code:

- **Rotation direction.** Pillow's `rotate` turns counter-clockwise for positive angles (`rotate(90, expand=1)` is its `ROTATE_90` transpose), and the model follows it. The shape of the output does not depend on the direction, because the second turn undoes the first. What does depend on it is which end of the rows the second shuffle starts from.
- **Slice count.** The code does not check the count, and the model does what the code does:
  - `0` raises `ZeroDivisionError` at `image.width // slice_amt`;
  - a negative count makes both loops empty and returns a blank canvas at least as wide as the input.

## Model

| member | source | states |
|---|---|---|
| Raster.BlankImage | gabiel.py:21 | `Image.new(mode, size)` has the given mode and size, and every pixel is the zero colour |
| Raster.Crop | gabiel.py:52 | a crop inside the image has the box's size, and pixel `(x, y)` is source pixel `(left + x, top + y)` |
| Raster.PastedAt | gabiel.py:58 | after `paste(src, (ox, oy))`, a covered pixel comes from `src` at the offset position and any other pixel is kept |
| Raster.Canvas.constructor | gabiel.py:49 | a fresh canvas has the requested mode and size, and is blank |
| Raster.Canvas.Paste | gabiel.py:58 | pasting in place leaves the canvas equal to `Pasted` of its old contents; pixels outside the canvas are dropped |
| Raster.FlipLeftRight | gabiel.py:30 | `FLIP_LEFT_RIGHT` keeps the size, and pixel `(x, y)` is source pixel `(w-1-x, y)` |
| Raster.FlipTopBottom | gabiel.py:27 | `FLIP_TOP_BOTTOM` keeps the size, and pixel `(x, y)` is source pixel `(x, h-1-y)` |
| Raster.Rotate90 | gabiel.py:89 | `rotate(90, expand=1)` swaps width and height, and pixel `(x, y)` is source pixel `(w-1-y, x)` |
| Raster.RotateMinus90 | gabiel.py:95 | `rotate(-90, expand=1)` swaps width and height, and pixel `(x, y)` is source pixel `(y, h-1-x)` |
| Raster.FlipLeftRightTwice | gabiel.py:30 | flipping left to right twice is the identity |
| Raster.FlipTopBottomTwice | gabiel.py:27 | flipping top to bottom twice is the identity |
| Raster.FlipsCommute | gabiel.py:30-33 | the two flips commute, so the bottom-right tile is either order of the two flips |
| Raster.RotateRoundTrip | gabiel.py:89-95 | `rotate(90)` then `rotate(-90)`, and the reverse order, restore the image exactly, size included |
| Mirror.Mirrored | gabiel.py:18-21 | the mirrored image keeps the mode and is exactly `2w` wide and `2h` tall |
| Mirror.MirroredAt | gabiel.py:24-34 | mirrored pixel `(x, y)` is source pixel `(Reflect(w, x), Reflect(h, y))` |
| Mirror.PastesTile | gabiel.py:24-34 | every pixel of the `2w x 2h` canvas is covered by exactly one of the four pastes |
| Mirror.FourPastesAt | gabiel.py:21-34 | after the four pastes on a blank canvas, each pixel holds the reflected source pixel, so none stays blank |
| Mirror.FourPastes | gabiel.py:21-34 | the four pastes in source order produce exactly the mirrored image |
| Mirror.CreateMirroredImage | gabiel.py:10-36 | `create_mirrored_image` returns the mirrored image |
| Mirror.MirroredQuadrants | gabiel.py:24-34 | the four quadrants are the source, its vertical flip, its horizontal flip and both flips |
| Mirror.MirroredOppositeCorners | gabiel.py:33-34 | the bottom-right quadrant is the top-left quadrant flipped on both axes |
| Mirror.MirroredSymmetric | gabiel.py:10-36 | the mirrored image is unchanged by either flip |
| Slicing.FloorDivIsFloor | gabiel.py:48 | `//` rounds toward negative infinity, for either sign of the divisor |
| Slicing.CanvasWidth | gabiel.py:48-49 | the canvas width `slice_size * slice_amt` is never negative. For a positive count it is at most the width and loses fewer than `slice_amt` columns. For a negative count it is at least the width |
| Slicing.Reverse | gabiel.py:60 | `reverse()` keeps the length and puts item `i` at position `len-1-i` |
| Slicing.ReverseMultiset | gabiel.py:60 | reversing keeps every item as often as it occurs |
| Slicing.FoldReverseOrder | gabiel.py:57-60 | the pop-and-reverse loop takes item `Placed(n, i)` at step `i`: `i/2` for even `i`, `n-1-i/2` for odd `i` |
| Slicing.FoldReversePermutes | gabiel.py:57-60 | the pop-and-reverse loop places every strip exactly once: the result is a permutation |
| Slicing.FoldReverseOfFour | gabiel.py:57-60 | strips A, B, C, D are laid out as A, D, B, C |
| Slicing.PlacementInverse | gabiel.py:57-60 | `Slot` and `Placed` are mutually inverse, so the placement order is a bijection of `0..n-1` |
| Slicing.OrderIsPermutation | gabiel.py:57-60 | the placement order holds every index below `n` once, without repetition |
| Slicing.OrderOfFour | gabiel.py:57-60 | for four strips the placement order is `[0, 3, 1, 2]` |
| Slicing.Strip | gabiel.py:52 | strip `k` is `size` wide, as tall as the image, and column `c` is image column `k * size + c` |
| Slicing.StripsAreStrips | gabiel.py:51-53 | every cropped strip is `size` wide and as tall as the image |
| Slicing.FoldReverseStrips | gabiel.py:57-60 | the shuffled strips are still all `size` wide and image-tall |
| Slicing.LaidOutStrip | gabiel.py:57-58 | after pasting strip `i` at offset `i * size` for each `i`, column `c` of slot `k` shows column `c` of the `k`-th pasted strip |
| Slicing.SourceColumnOfStrip | gabiel.py:52-58 | output column `k * size + c` reads input column `Placed(n, k) * size + c` |
| Slicing.SliceRev | gabiel.py:39-62 | see the list after the table |
| Slicing.SliceRevAt | gabiel.py:52-58 | output pixel `(x, y)` is input pixel `(SourceColumn(n, size, x), y)`, a column below `size * n`, so the remainder columns never appear |
| Slicing.SliceRevStrips | gabiel.py:52-58 | column `c` of output strip `k` is column `c` of input strip `Placed(n, k)` |
| Slicing.SliceRevSingle | gabiel.py:39-62 | with one strip the image comes back unchanged |
| Slicing.LaidOutShuffle | gabiel.py:47-62 | pasting the shuffled strips on the blank canvas gives the permuted image |
| Slicing.CutStrips | gabiel.py:51-53 | the crop loop yields the `slice_amt` strips left to right, and none for a negative count |
| Slicing.PasteStrips | gabiel.py:57-60 | the paste loop leaves the strips laid out in pop-and-reverse order. Its invariants show the working list shrinks by one per step, is non-empty at each `slices[0]` and ends empty |
| Slicing.ImageSliceRev | gabiel.py:39-62 | `image_slice_rev` returns exactly `SliceRev`, including the zero-count error and the negative-count blank canvas |
| Gabial.MakeGabial | gabiel.py:83-95 | see the list after the table |
| Gabial.RowPass | gabiel.py:89-95 | turning, slicing and turning back keeps the width, truncates the height to `(h // n) * n` and moves rows, not columns |
| Gabial.MakeGabialAt | gabiel.py:83-95 | output pixel `(x, y)` is mirrored pixel `(SourceColumn(n, s1, x), SourceColumn(n, s2, y))`, and so a reflected source pixel |
| Gabial.MakeGabialSolid | gabiel.py:83-95 | for a positive count, a solid-colour source gives a solid output of the same colour |
| Gabial.MakeGabialKeepsSize | gabiel.py:86-92 | when `n` divides both `2w` and `2h`, the output is `2w x 2h` |
| Gabial.MakeGabialNegative | gabiel.py:86-95 | a negative count gives a blank output |
| OutputName.Split | gabiel.py:123 | `split(".")` gives at least one piece, and no piece contains a dot |
| OutputName.JoinSplit | gabiel.py:123 | joining the pieces with dots gives the input back |
| OutputName.SplitCount | gabiel.py:123 | there is one more piece than there are dots |
| OutputName.SplitAtDot | gabiel.py:123 | there are at least two pieces exactly when the input contains a dot |
| OutputName.RemoveDisallowed | gabiel.py:122-124 | the substitution leaves only characters in `[a-zA-Z_-]` |
| OutputName.RemoveDisallowedCounts | gabiel.py:122-124 | every allowed character is kept as often as it occurs, and every other character is dropped |
| OutputName.RemoveDisallowedKeeps | gabiel.py:122-124 | a string of allowed characters is unchanged |
| OutputName.OutputFileName | gabiel.py:122-125 | see the list after the table |
| OutputName.OutputFileNameStem | gabiel.py:122-125 | the name is the second-to-last dot-separated piece with disallowed characters removed, followed by `_gabial.png` |
| OutputName.OutputFileNameOfPath | gabiel.py:122-125 | `dir/img.png` gives `dirimg_gabial.png` |
| OutputName.OutputFileNameOfDoubleExtension | gabiel.py:122-125 | `archive.tar.gz` gives `tar_gabial.png` |
| OutputName.OutputFileNameWithoutDot | gabiel.py:123 | `README` raises `IndexError` |

Three contracts are too long for a table cell.

- **Slicing.SliceRev** states:
  - it raises `ZeroDivisionError` exactly when the count is zero;
  - otherwise it keeps mode and height, and the width is `(W // n) * n`;
  - for a positive count that width is at most `W` and loses fewer than `n` columns;
  - for a negative count the width is at least `W` and the canvas is blank.
- **Gabial.MakeGabial** states:
  - it raises `ZeroDivisionError` exactly when the count is zero;
  - otherwise it keeps the mode, and the output is `((2w) // n) * n` wide and `((2h) // n) * n` tall.
- **OutputName.OutputFileName** states:
  - it raises `IndexError` exactly when the input has no dot;
  - otherwise the name ends in `_gabial.png`, and every character before `.png` is in `[a-zA-Z_-]`.

## Left out

- `Image.open`, `save` and `show`, and the `FileNotFoundError` / `sys.exit` handling (gabiel.py:76-80, 98-99). These are file and display I/O and process control.
- The command line (gabiel.py:104-129): the argument count check, `os.path.exists` and the `int()` parse of the count. The model takes the count as an integer and the path as a string.
- The `print` progress messages. They are observability only.
- ensure_pillow.py is not part of this model. It installs packages at run time through a subprocess.
- Pillow's pixel formats and colour modes. A pixel is an abstract integer and a mode is a tag that is copied along. Paste never converts between modes here, because every paste is between images of the same mode.
- Raster.Crop: modelled only for boxes inside the image. Pillow would pad a box that sticks out, but every crop in the script lies inside the image.
- Raster.Canvas.Paste: copies pixel by pixel rather than the way Pillow's blit does; only the resulting contents are modelled.
- Slicing.PasteStrips: the working list is a sequence that the loop reassigns. The in-place `pop(0)` and `reverse()` on a shared list object, and any aliasing of it, are not modelled.
- Out-of-memory failures for very large canvases are not modelled. Integers are unbounded, as in Python.
