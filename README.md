# jpg2tiff: colour-coded label images to index masks

`jpg2tiff.py` turns hand-painted label images into single-channel index
masks. Each pixel of an RGB raster is classified by fixed colour ranges:
- black (0, 0, 0) is background, index 0;
- a narrow dark red is class A, index 1;
- a green range is class B, index 2;
- anything else stays background.

The masks of classes A and B are then smoothed by one binary closing with a
plus-shaped structuring element. Black pixels are forced back to 0 and the
buffer is written as a TIFF. The output file name is the input name with
`.jpg` replaced by `_mask.tiff`. The batch loop takes only names whose
lower-cased form ends in `.jpg` or `.jpeg`.

The Dafny project models:

- `colour.dfy` (module `Colour`): the three per-pixel colour predicates and
  the class index that the three masked writes leave in a cell.
- `morphology.dfy` (module `Morphology`): `morphological_processing`.
  It builds the class mask `index == c` and applies one dilation, then one
  erosion, by the cross, with every cell outside the image read as false.
  This is the closing as defined, not scipy's algorithm.
- `convert.dfy` (module `Convert`): the body of `jpg_to_tiff_mask` between
  decoding and encoding. It is an imperative method on a two-dimensional
  array `index` that applies the six masked writes in the source's order.
  The method is proved equal to the specification function `Final`, and the
  properties of the finished buffer are lemmas about `Final`.
- `naming.dfy` (module `Naming`): the output name,
  `basename.replace('.jpg', '_mask.tiff')`, as a left-to-right,
  non-overlapping replacement, and the input filter
  `name.lower().endswith(('.jpg', '.jpeg'))`.

Where the code and its comments or its documentation disagree, the model
follows the code:

- The green mask passes three arrays to the two-operand `np.logical_and`.
  The third is taken as the output array, so the blue test (B <= 50) takes
  no part, and a pixel such as (0, 100, 255) is green.
  `Colour.IsGreen` is the mask as computed. `Colour.IsGreenAsRead` is the
  three-test reading, kept only to state the difference.
- The comment above the writes gives the priority as black > red > green.
  The writes run black, red, green, so the last write wins. The three
  masks never overlap, so both orders give the same index; this is proved.
- scipy's `binary_closing` uses a border value of 0 in both of its passes.
  An edge pixel therefore never enters a closed mask, and morphology leaves
  every edge pixel as classified. On a 1×1 image the closing is empty, so
  the image keeps its label.

## Model

| member | source | states |
|---|---|---|
| Colour.IsBlack | jpg2tiff.py:36-39 | The black mask: R, G and B are all 0 |
| Colour.IsRed | jpg2tiff.py:27-30 | The red mask: 125 <= R <= 130, G <= 5 and B <= 5 |
| Colour.IsGreen | jpg2tiff.py:31-35 | The green mask as computed: R <= 50 and 80 <= G <= 150; blue is not tested |
| Colour.Label | jpg2tiff.py:41-44 | The cell holds 2 exactly when the pixel is green, 1 exactly when it is red, and 0 exactly when it is neither; a black pixel gets 0; the index is always 0..2 |
| Colour.MasksDisjoint | jpg2tiff.py:27-39 | No pixel is in two of the black, red and green masks |
| Colour.CommentPriorityAgrees | jpg2tiff.py:41-44 | The announced priority (black over red over green) gives the same index as the write order (later writes win) |
| Colour.GreenIgnoresBlue | jpg2tiff.py:31-35 | Whether a pixel is green, and whether it gets class B, does not depend on its blue channel |
| Colour.GreenWiderThanRead | jpg2tiff.py:31-35 | Every pixel passing all three green tests is green; a green pixel fails the three-test reading exactly when its blue exceeds 50; (0, 100, 255) is green and gets class B |
| Morphology.ClassMask | jpg2tiff.py:9 | The mask has the grid's shape and is set exactly at the cells holding the class |
| Morphology.Dilate | jpg2tiff.py:13 | The dilation pass: the mask's rows and columns, a cell set when its cross meets the mask (outside cells false) |
| Morphology.DilateContainsMask | jpg2tiff.py:13 | Every set cell of the mask is set in the dilation |
| Morphology.Erode | jpg2tiff.py:13 | The erosion pass: the mask's rows and columns, a cell set when its whole cross is set (outside cells false) |
| Morphology.ErodeWithinMask | jpg2tiff.py:13 | Every set cell of the erosion is set in the mask |
| Morphology.Closing | jpg2tiff.py:13 | The closing has the mask's rows and columns |
| Morphology.ClosingCell | jpg2tiff.py:10-13 | A cell is in the closing exactly when it is inside the image and the dilation (the cross meets the mask, outside cells false) covers the cell and its four cross-neighbours |
| Morphology.ClosedIsInterior | jpg2tiff.py:13 | A closed cell has all four cross-neighbours inside the image |
| Morphology.ClosingOffEdges | jpg2tiff.py:13 | No cell on the edge of the image is in the closing |
| Morphology.ClosingExtensive | jpg2tiff.py:13 | A set interior cell stays set after closing |
| Morphology.ClosingFillsHole | jpg2tiff.py:10-13 | An interior cell whose four cross-neighbours are set is in the closing, whether or not it was set |
| Morphology.ClosingIsLocal | jpg2tiff.py:10-13 | A cell in the closing is set or has a set cross-neighbour |
| Morphology.ClosingOfEmpty | jpg2tiff.py:13 | Closing a mask with no set cell gives no set cell |
| Morphology.ClosingRectangular | jpg2tiff.py:13 | The closing of a rectangular mask is rectangular with the same width |
| Morphology.ReclosingKeeps | jpg2tiff.py:13 | A cell of the closing is in the closing of the closing |
| Morphology.ReclosingAddsNothing | jpg2tiff.py:13 | A cell of the closing of the closing is in the closing |
| Morphology.ClosingIdempotent | jpg2tiff.py:13 | Closing a closed mask again changes nothing |
| Morphology.MorphologicalProcessing | jpg2tiff.py:7-14 | The processed mask has the grid's shape; a set cell is interior and it or a cross-neighbour holds the class; every interior cell holding the class is set; every interior cell whose four cross-neighbours hold the class is set |
| Convert.PixelMask | jpg2tiff.py:27-39 | A mask of the raster's shape, set exactly at the pixels satisfying the predicate |
| Convert.Labels | jpg2tiff.py:41-44 | The classified buffer has the raster's shape and holds Label of each pixel |
| Convert.ClosedClass | jpg2tiff.py:47-48 | The closed mask of a class, taken from the classified buffer, has the raster's shape |
| Convert.Final | jpg2tiff.py:47-51 | The finished buffer has the raster's shape |
| Convert.ApplyMask | jpg2tiff.py:42-44 | `index[mask] = v`: every cell under the mask becomes v, every other cell keeps its old value |
| Convert.Classify | jpg2tiff.py:24-44 | Starting from a buffer of zeros, the black, red and green writes leave exactly Labels of the raster |
| Convert.Postprocess | jpg2tiff.py:47-51 | From the classified buffer, the two closed-mask writes and the black write leave exactly Final of the raster |
| Convert.JpgToTiffMask | jpg2tiff.py:17-51 | A fresh buffer of the raster's height and width holding exactly Final of the raster |
| Convert.FinalInRange | jpg2tiff.py:42-51 | Every finished cell is 0, 1 or 2 |
| Convert.BlackEndsBackground | jpg2tiff.py:51 | A black pixel ends as 0, whatever the closings covered |
| Convert.UncoveredKeepsLabel | jpg2tiff.py:49-51 | A cell that neither closed mask covers keeps its class; a pixel of no class there ends as 0 |
| Convert.BothCoveredEndsClassB | jpg2tiff.py:49-50 | A non-black cell covered by both closed masks ends as 2 |
| Convert.ClassBCoverEndsClassB | jpg2tiff.py:49-51 | A non-black cell covered by the closed class-B mask ends as 2 |
| Convert.ClassACoverEndsClassA | jpg2tiff.py:49-51 | A non-black cell covered by the closed class-A mask and not by the class-B one ends as 1 |
| Convert.EdgeKeepsLabel | jpg2tiff.py:47-51 | An edge pixel ends with its classified index |
| Convert.LabelledStaysLabelled | jpg2tiff.py:47-51 | A red or green pixel never ends as 0; an interior green pixel ends as 2 |
| Convert.GrowthIsLocal | jpg2tiff.py:47-50 | A cell ending as class 1 or 2 was classified so, or has a cross-neighbour that was |
| Convert.HoleFilledWithClassA | jpg2tiff.py:47-51 | An interior non-black, non-green pixel whose four cross-neighbours are red ends as 1 |
| Convert.AllBlackGivesBackground | jpg2tiff.py:36-51 | An all-black raster ends all 0 |
| Convert.AllRedGivesClassA | jpg2tiff.py:27-51 | An all-red raster ends all 1 |
| Convert.SinglePixelKeepsLabel | jpg2tiff.py:17-51 | A one-pixel raster ends as the pixel's class |
| Naming.OutputName | jpg2tiff.py:57-58 | The output name is never shorter than the input name |
| Naming.OccursAtIsSlice | jpg2tiff.py:58 | The character test for ".jpg" at a position equals the slice comparison |
| Naming.OutputNameUnchangedIff | jpg2tiff.py:58 | The name is unchanged exactly when it holds no ".jpg"; otherwise it grows |
| Naming.OutputNameSplitAtDot | jpg2tiff.py:58 | Replacing in a + b, where b starts with '.', is replacing in a and in b separately |
| Naming.OutputNameHasNoPattern | jpg2tiff.py:58 | No ".jpg" is left in an output name |
| Naming.OutputNameIdempotent | jpg2tiff.py:58 | Renaming an output name again changes nothing |
| Naming.JpgEndingReplaced | jpg2tiff.py:57-58 | A name ending in ".jpg" ends in "_mask.tiff"; stem + ".jpg" becomes stem + "_mask.tiff" when the stem holds no ".jpg" |
| Naming.OtherEndingsKept | jpg2tiff.py:58 | The endings ".jpeg", ".JPG", ".JPEG" and ".Jpg" are kept, so such a name whose stem holds no ".jpg" is its own output name |
| Naming.SelectedWithoutPatternKeepsName | jpg2tiff.py:57-69 | A selected name without ".jpg" keeps its name, so its mask is written over the input file when the two folders are the same |
| Naming.Selected | jpg2tiff.py:69 | The filter: the lower-cased name ends in ".jpg" or ".jpeg" |
| Naming.LowerChar | jpg2tiff.py:69 | ASCII upper-case letters map to their lower-case letters; every other character is kept |
| Naming.Lower | jpg2tiff.py:69 | Lower-casing keeps the length and lower-cases each character |
| Naming.SelectedIgnoresCase | jpg2tiff.py:69 | The filter gives the same answer for a name and its lower-cased form |
| Naming.SelectedExamples | jpg2tiff.py:69 | "a.jpg", "a.JPG", "a.jpeg" and "a.JpEg" are taken |
| Naming.RejectedExamples | jpg2tiff.py:69 | "a.png", "jpg" and "a.tiff" are passed over |
| Naming.InnerJpgRejected | jpg2tiff.py:69 | "a.jpg.png" is passed over |

## Left out

- Decoding is not modelled (lines 19-20): the file is opened, converted to RGB and turned into an array. The raster is a parameter, and read failures are not modelled.
- Encoding and saving are not modelled (lines 54, 59), and neither is the print of the saved path (line 60). These are `Image.fromarray` in mode 'L' and the TIFF save with LZW compression.
- The directory part of the output path is not modelled (lines 57-58): `os.path.join` and `os.path.basename`. The model works on the base name. That base name is the listed file name, because the input path is built by joining the folder and the name.
- The batch driver is not modelled (lines 63-71): the hard-coded folders, `os.makedirs`, `os.listdir` and the loop. Only its filter is modelled, as `Naming.Selected`.
- scipy's `binary_closing` is modelled by its definition. Its implementation is not modelled. The cross is its own reflection, so dilation needs no reflection.
- The buffer's `uint8` type is modelled as `int`. Only 0, 1 and 2 are ever stored, so no wrap-around can happen.
- Naming.LowerChar: lower-cases the ASCII letters only. Python's `str.lower` also maps non-ASCII letters. This cannot change the filter's answer for names whose last five characters are ASCII.
- Naming.Lower: keeps the length of the name, which Python's `str.lower` does not always do: it turns 'İ' into two code points. Only characters before the last five can be affected when those five are ASCII, so the filter's answer is the same.
- Convert.ApplyMask: numpy's boolean-index assignment is modelled as a row-by-row loop. The cells are independent, so the order of the writes does not matter.
- Convert.Final, Convert.ClosedClass and Morphology.Closing: their own contracts state only the shape. The value of each cell of Final is given by its body. The lemmas above state the cases: black (Convert.BlackEndsBackground), covered by the class-B mask (Convert.ClassBCoverEndsClassB), covered by the class-A mask only (Convert.ClassACoverEndsClassA), and covered by neither (Convert.UncoveredKeepsLabel). The cells of the closing are given by Morphology.ClosingCell.
