# Rubik's-cube vision pipeline: a Dafny model of its discrete core

RubikCube reads six photographs of a Rubik's cube and turns them into the
54-letter facelet string a solver expects. Each photograph passes through
these stages:

- edge detection: Gaussian blur, gradient thinning and hysteresis thresholding;
- Harris corner detection;
- choosing the four corners that best frame the cube face, then warping that quadrilateral to a square;
- HSV colour thresholding into one binary mask per colour;
- encoding each mask's 3x3 cells into face letters, then splicing the six faces into one string.

This project models the parts of the pipeline that are integer, comparison or
string arithmetic. It states their contracts and proves them:

- `Facelets` (`Tools/ConvertImagesToString.cs`): the 54-character cube string, the strict-majority cell vote, the letter insertion, the per-folder and per-cube loops, and the mask union.
- `ColorsMapping` (`Tools/ColorsMapping.cs`): inclusive HSV range tests producing 0/255 masks, and the seven colour ranges the pipeline uses.
- `MorphOps` (`Tools/MorphOps.cs`): grey-level erosion and dilation over a square window that skips out-of-bounds pixels.
- `HighPassFilters` (`Tools/HighPassFilters.cs`), the Canny stages:
  - the blur's border and clamping structure;
  - the thinning band and direction bins;
  - the two-pass hysteresis, where promotions happen in place.
- `Tools` (`Tools/Tools.cs`): the integral image and the window sums of adaptive thresholding, the custom window threshold, and the Sobel filter with its diagonal test.
- `HarrisOperator` (`Tools/Segmentation.cs`, Harris region): Sobel gradients, gradient products, and corner selection by margin, threshold and window maxima.
- `CubeFaceCropping` (`Tools/Segmentation.cs`, cropping region): the index-combination generator, the shoelace area, corner ordering, and the area-then-score selection walk.
- `Preprocessing` (`Tools/Preprocessing.cs`):
  - matrix product and Gauss-Jordan inversion without row exchanges;
  - the point matrices of the projective transform;
  - the vector-median denoiser;
  - the second copy of the face encoder.
- `Images` and `Results`: the shared pixel grids, C#'s truncating division, byte clamping, first arg-min/arg-max, and a `Result` type. The `Result` error kinds name the exceptions the C# code throws:
  - `IndexOutOfRange`: an array index out of range;
  - `ArgumentOutOfRange`: a `List` index or `Substring` out of range;
  - `InvalidOperation`: the matrix errors;
  - `InvalidArgument`: an `ArgumentException`;
  - `Overflow`: a negative array size;
  - `DivideByZero`.

How the model represents the program:

- Images are immutable grids (`seq<seq<int>>`, or `seq<seq<Bgr>>` for colour) and every stage is a pure function.
- A method with a loop is modelled where the loop itself is the point: the integral image, the window scans and corner selection.
- Doubles are read as exact reals, with no rounding, in these places:
  - the HSV channels and the hue bounds of colour thresholding;
  - the shoelace area, the centre and angle keys of corner ordering, and the quad score;
  - the Harris response and its threshold;
  - the Gaussian blur's kernel weights and its weighted window sums;
  - the gradient field and the interpolated neighbours of thinning, and the hysteresis thresholds;
  - the entries of the matrix helpers (`MultiplyMatrices`, `InvertMatrix`, `MultiplyNumberWithMatrix`);
  - the denoiser's colour distances and their row sums;
  - the constant and the mean of the custom adaptive threshold, and the Sobel threshold and angle.
- Where every value involved is a small integer (byte sums, products of byte gradients) the double arithmetic is exact, so reading it as real loses nothing. Everywhere else the exact-real results can differ from the program's in the last bit. A truncating cast after such a sum can then give one less, and the per-member lines under "Left out" say where this matters.
- The floating-point steps the program takes from the maths library are function-typed parameters: atan2, the gradient magnitude, the tangent weight, the aspect-ratio/angle score, the HSV conversion and the colour distance. The contracts hold for every such function. The Gaussian kernel is an input of the blur.
- In these places the code behaves differently from what its names suggest; the model follows the code:
  - Hysteresis thresholding promotes weak pixels in place during one row-major scan. A promotion therefore counts for later pixels in the scan, and weak pixels on the outermost rows and columns stay weak (25).
  - The thinning band is 11 pixels at the top and left edges and 10 at the bottom and right edges.
  - A face string starts as `NNNnnnNNN`, not as nine `n`s.
  - The combination generator does not enumerate every 4-subset (see Findings).
  - The adaptive window sum drops a row and a column (see Findings).

## Model

| member | source | states |
|---|---|---|
| Facelets.InstantiateCubeString | RubikCube/RubikCube/Tools/ConvertImagesToString.cs:52-62 | the initial cube string has exactly 54 characters, all `n` |
| Facelets.InsertInCubeString | RubikCube/RubikCube/Tools/ConvertImagesToString.cs:35-50 | succeeds iff `9 * faceIndex` is within the string; keeps the prefix before the slot, places the insert at the slot, and has the length of the prefix plus the insert plus whatever suffix survives |
| Facelets.InsertFaceReplacesSlot | RubikCube/RubikCube/Tools/ConvertImagesToString.cs:35-50 | for a 54-character cube, a 9-character face and slot 0..5 (the last slot takes the no-suffix branch): the result has 54 characters, slot f holds the face and every other position is unchanged |
| Facelets.FaceIndex | RubikCube/RubikCube/Tools/ConvertImagesToString.cs:15-29 | `IndexOf` over the face order mid, bot, back, top, right, left: -1 iff the name is absent, otherwise the first position holding it |
| Facelets.FaceOrderDistinct | RubikCube/RubikCube/Tools/ConvertImagesToString.cs:15 | the six face names are pairwise distinct, so each face has exactly one slot |
| Facelets.ToLower | RubikCube/RubikCube/Tools/ConvertImagesToString.cs:32 | lower-casing keeps the length and maps every character through the ASCII lower-case mapping |
| Facelets.Stem | RubikCube/RubikCube/Tools/ConvertImagesToString.cs:70 | `Split(".")[0]` is the longest dot-free prefix of the name: it is followed by a dot or by the end of the name |
| Facelets.MaskLetter | RubikCube/RubikCube/Tools/ConvertImagesToString.cs:70 | the colour code is available iff the stem is nonempty (otherwise the index `[0]` throws), and it is then the stem's first character |
| Facelets.CellCountsCoverCell | RubikCube/RubikCube/Tools/ConvertImagesToString.cs:105-121 | the white and the other-pixel counters together count every pixel of the inc-by-inc cell |
| Facelets.CellVoteIsStrictMajority | RubikCube/RubikCube/Tools/ConvertImagesToString.cs:123-128 | a cell wins iff twice its 255-pixels exceed inc*inc, so a tie loses |
| Facelets.IsValidCurrentSquare | RubikCube/RubikCube/Tools/ConvertImagesToString.cs:103-129 | the counting loops return true exactly when the cell's 255-pixels strictly outnumber its other pixels |
| Facelets.InsertInString | RubikCube/RubikCube/Tools/ConvertImagesToString.cs:131-146 | with a 1-character code and an in-range position `i/inc*3 + j/inc`, only that character changes and the length is kept; one past the end appends the code; a zero factor or a position beyond that fails |
| Facelets.InsertInStringReplacesCell | RubikCube/RubikCube/Tools/ConvertImagesToString.cs:131-146 | the guarded inserter is exactly a single-character update at the cell's position |
| Facelets.CellAt | RubikCube/RubikCube/Tools/ConvertImagesToString.cs:89-98 | on a square mask the cell at cell row a and cell column b lies inside the mask, sits at face position 3a + b, and its vote is the vote of face cell 3a + b |
| Facelets.ScanColumnsSquare | RubikCube/RubikCube/Tools/ConvertImagesToString.cs:91-97 | on a square mask the inner loop over cell row a from cell column b writes the code into exactly the winning cells of that row from column b on, and leaves every other character alone |
| Facelets.ScanRowsSquare | RubikCube/RubikCube/Tools/ConvertImagesToString.cs:89-98 | on a square mask the outer loop from cell row a writes the code into exactly the winning cells of rows a..2 |
| Facelets.EncodeSquareMask | RubikCube/RubikCube/Tools/ConvertImagesToString.cs:83-101 | on a square mask at least 9 wide, any inserter that replaces one cell visits the 9 cells once: cell k gets the code iff its vote wins, and otherwise keeps its character |
| Facelets.ConvertImageToString | RubikCube/RubikCube/Tools/ConvertImagesToString.cs:83-101 | on a square mask, a 9-character face and a 1-character code, it yields 9 characters: the code at the winning cells, the old character elsewhere |
| Facelets.Extension | RubikCube/RubikCube/Tools/ConvertImagesToString.cs:162 | `Path.GetExtension` is empty or a suffix of the name that starts at its last dot and has at least one character after it |
| Facelets.PngMaskFile | RubikCube/RubikCube/Tools/ConvertImagesToString.cs:70-72 | a mask saved as `<stem>.png` with a dot-free nonempty stem is read as an image file, and its letter is the stem's first character |
| Facelets.ApplyMask | RubikCube/RubikCube/Tools/ConvertImagesToString.cs:68-78 | a file with an empty stem throws before the extension test; a non-image file leaves the face unchanged |
| Facelets.ApplySquareMask | RubikCube/RubikCube/Tools/ConvertImagesToString.cs:68-78 | one loop iteration succeeds iff the stem is nonempty, and then writes the stem's first letter into exactly the cells the mask wins (none for a non-image file) |
| Facelets.EncodeMasksFails | RubikCube/RubikCube/Tools/ConvertImagesToString.cs:63-81 | the face loop over square masks succeeds iff every file has a nonempty stem, and then yields 9 characters |
| Facelets.EncodeMasksLastWins | RubikCube/RubikCube/Tools/ConvertImagesToString.cs:63-81 | each cell holds the letter of the last mask file that wins it, or its starting character if none does (later masks overwrite earlier ones) |
| Facelets.PlaceFoldersSlots | RubikCube/RubikCube/Tools/ConvertImagesToString.cs:24-30 | placing the folders' faces succeeds iff every folder name is a known face; then each 9-character slot holds the face of the last folder with that name, or the initial characters |
| Facelets.CubeStringFromFaces | RubikCube/RubikCube/Tools/ConvertImagesToString.cs:17-33 | the cube string is 54 characters: the lower-cased face of the last folder of each name in its slot, `n` in empty slots; it fails iff some folder name is unknown |
| Facelets.CombineTwoImage | RubikCube/RubikCube/Tools/ConvertImagesToString.cs:193-220 | sized like the first mask and binary; a pixel is 255 iff either input pixel is 255; fails iff at some pixel where the first mask is not 255 the second mask has no pixel, since only there is it read |
| Facelets.CombineCommutes | RubikCube/RubikCube/Tools/ConvertImagesToString.cs:193-220 | on masks of one shape the union does not depend on the order of its arguments |
| Facelets.CombineIdempotent | RubikCube/RubikCube/Tools/ConvertImagesToString.cs:193-220 | a binary mask united with itself is unchanged |
| ColorsMapping.ApplyColorThresholding | RubikCube/RubikCube/Tools/ColorsMapping.cs:63-91 | the mask has the image's size, and a pixel is 255 iff hue, saturation and value each lie in their inclusive bounds, else 0 |
| ColorsMapping.ApplyHueThresholding | RubikCube/RubikCube/Tools/ColorsMapping.cs:15-36 | the mask has the image's size, and a pixel is 255 iff its hue lies in the inclusive bounds |
| ColorsMapping.HueThresholdingIsFullRange | RubikCube/RubikCube/Tools/ColorsMapping.cs:15-36 | on a byte image, hue thresholding equals colour thresholding with saturation and value bounds [0, 255] |
| ColorsMapping.WideningKeepsPixels | RubikCube/RubikCube/Tools/ColorsMapping.cs:86-91 | widening the range on any channel never turns a 255 mask pixel into 0 |
| ColorsMapping.InvertedRangeIsBlank | RubikCube/RubikCube/Tools/ColorsMapping.cs:88-90 | a range with some lower bound above its upper bound yields an all-zero mask |
| ColorsMapping.ApplyColorThresholdingToAllSides | RubikCube/RubikCube/Tools/ColorsMapping.cs:40-61 | one entry per side, each holding exactly one mask per colour key |
| ColorsMapping.AllSidesMasks | RubikCube/RubikCube/Tools/ColorsMapping.cs:40-61 | the mask of colour c on side s is the colour threshold of that side's HSV image with c's range |
| ColorsMapping.OrangeYellowOverlap | RubikCube/RubikCube/ViewModel/Commands/LoadImageCommand.cs:233-234 | the ranges share hue 20, so one pixel can be in both the orange and the yellow mask |
| ColorsMapping.WhiteIsDisjoint | RubikCube/RubikCube/ViewModel/Commands/LoadImageCommand.cs:232-239 | no colour is both in the white range and in any other range |
| ColorsMapping.MaskFileLetters | RubikCube/RubikCube/ViewModel/Commands/LoadImageCommand.cs:257 | each colour mask `<colour>.png` is read by the encoder as an image whose letter is the colour's initial; both red ranges give `R` |
| MorphOps.ErodedPixel | RubikCube/RubikCube/Tools/MorphOps.cs:25-42 | the eroded value is at most 255 and every in-bounds window pixel, and it is 255 or one of those pixels |
| MorphOps.DilatedPixel | RubikCube/RubikCube/Tools/MorphOps.cs:61-78 | the dilated value is at least 0 and every in-bounds window pixel, and it is 0 or one of those pixels |
| MorphOps.Erosion | RubikCube/RubikCube/Tools/MorphOps.cs:13-47 | keeps the size; each pixel is the window minimum described above |
| MorphOps.Dilation | RubikCube/RubikCube/Tools/MorphOps.cs:49-83 | keeps the size; each pixel is the window maximum described above |
| MorphOps.CentreInWindow | RubikCube/RubikCube/Tools/MorphOps.cs:27-32 | for size at least 1, the window at offset `size / 2` contains its centre pixel |
| MorphOps.ErosionBelowDilationAbove | RubikCube/RubikCube/Tools/MorphOps.cs:25-42 | erosion is at most the input and dilation is at least the input, at every pixel |
| MorphOps.SizeOneIsIdentity | RubikCube/RubikCube/Tools/MorphOps.cs:27-42 | with size 1 both operations return a byte image unchanged |
| MorphOps.ConstantIsFixed | RubikCube/RubikCube/Tools/MorphOps.cs:25-42 | a constant byte image is a fixed point of both operations |
| MorphOps.Monotone | RubikCube/RubikCube/Tools/MorphOps.cs:13-83 | if a is below b at every pixel, so are erosion(a) and erosion(b), and dilation(a) and dilation(b) |
| MorphOps.ErosionDilationDuality | RubikCube/RubikCube/Tools/MorphOps.cs:13-83 | erosion is dilation of the negative, negated |
| HighPassFilters.ApplyGaussianBlur | RubikCube/RubikCube/Tools/HighPassFilters.cs:52-85 | the pixels within kernelSize/2 of an edge are 0; an inner channel is the clamped and truncated weighted window sum, with the sum taken in exact reals; an even kernel reads past the kernel and a negative size fails |
| HighPassFilters.NormalisedKernelKeepsFlatChannel | RubikCube/RubikCube/Tools/HighPassFilters.cs:45-80 | in the exact-real reading of the blur, a kernel whose weights sum to exactly one leaves a flat channel unchanged away from the border |
| HighPassFilters.BinsPartition | RubikCube/RubikCube/Tools/HighPassFilters.cs:177-204 | every direction passes exactly one of the four branch tests, so the fall-through is never taken |
| HighPassFilters.NonMaximumSuppression | RubikCube/RubikCube/Tools/HighPassFilters.cs:154-221 | a byte image of the field's size: 0 in the band y <= 10, y >= h-10, x <= 10, x >= w-10; elsewhere 0 below the interpolated neighbour value and the clamped magnitude otherwise |
| HighPassFilters.NarrowFieldIsBlank | RubikCube/RubikCube/Tools/HighPassFilters.cs:164-167 | a field fewer than 22 pixels high or wide lies wholly in the band and comes out black |
| HighPassFilters.InterpolateBetween | RubikCube/RubikCube/Tools/HighPassFilters.cs:148-151 | with a weight in [0, 1] the interpolated value lies between the two neighbour magnitudes |
| HighPassFilters.RidgeMaximumSurvives | RubikCube/RubikCube/Tools/HighPassFilters.cs:173-215 | outside the band and with a weight in [0, 1], a magnitude at least both neighbours is kept, clamped; one below both is suppressed |
| HighPassFilters.FirstPass | RubikCube/RubikCube/Tools/HighPassFilters.cs:235-254 | a pixel is 255 iff at least the high threshold, 25 iff in [low, high), and 0 iff below both |
| HighPassFilters.IsStrongEdgeNeighbor | RubikCube/RubikCube/Tools/HighPassFilters.cs:278-291 | true iff some pixel of the 3-by-3 window equals the strong value |
| HighPassFilters.SweepRow | RubikCube/RubikCube/Tools/HighPassFilters.cs:258-272 | the inner loop changes only weak pixels of its row stretch, each to 0 or 255 |
| HighPassFilters.SweepRows | RubikCube/RubikCube/Tools/HighPassFilters.cs:256-273 | the second pass changes only weak inner pixels, each to 0 or 255; strong and zero pixels keep their first-pass value |
| HighPassFilters.HysteresisThresholding | RubikCube/RubikCube/Tools/HighPassFilters.cs:226-276 | output values are 0, 25 or 255; strong input stays 255 and input below both thresholds is 0; weak inner pixels become 0 or 255, and weak pixels on the outermost rows and columns stay 25 |
| HighPassFilters.PromotedAtScanTime | RubikCube/RubikCube/Tools/HighPassFilters.cs:256-291 | a weak inner pixel is promoted iff its window holds a strong pixel in the image as partially updated at scan time, counting earlier promotions |
| HighPassFilters.ScanOrderForward | RubikCube/RubikCube/Tools/HighPassFilters.cs:256-273 | a chain of weak pixels after a strong one is promoted along the scan |
| HighPassFilters.ScanOrderBackward | RubikCube/RubikCube/Tools/HighPassFilters.cs:256-273 | the mirrored chain is not: a weak pixel whose only strong link is promoted later in the scan is dropped |
| Tools.IntegralStep | RubikCube/RubikCube/Tools/Tools.cs:115-126 | the inclusion-exclusion recurrence of the fill loop holds for prefix-rectangle sums |
| Tools.IntegralImage | RubikCube/RubikCube/Tools/Tools.cs:109-128 | entry (y, x) of the integral image is the sum of the pixels in rows 0..y and columns 0..x |
| Tools.WindowClamped | RubikCube/RubikCube/Tools/Tools.cs:135-138 | the clamped window satisfies 0 <= low <= c <= high <= n-1 iff `dim / 2` is not negative; otherwise it is empty |
| Tools.WindowSumSkipsFirstRowAndColumn | RubikCube/RubikCube/Tools/Tools.cs:141 | the window sum as written is the pixel sum over rows y0+1..y1 and columns x0+1..x1 |
| Tools.WindowSumCorrectedIsWholeWindow | RubikCube/RubikCube/Tools/Tools.cs:141 | the corrected inclusion-exclusion is the pixel sum over the whole window |
| Tools.AdaptivePixel | RubikCube/RubikCube/Tools/Tools.cs:141-155 | a pixel is 255 iff it exceeds the threshold of its window sum and window count, else 0 |
| Tools.AdaptiveThresholding | RubikCube/RubikCube/Tools/Tools.cs:99-160 | as written: fails iff `dim / 2` is negative on a nonempty image; otherwise a binary image of the input's size where a pixel is 255 iff it exceeds the threshold of the window sum without its first row and column over the full window count |
| Tools.AdaptiveThresholdingCorrected | RubikCube/RubikCube/Tools/Tools.cs:99-160 | the same filter with the whole window summed |
| Tools.BrightCornerAsWritten | RubikCube/RubikCube/Tools/Tools.cs:141-155 | on a 3-by-3 image with a bright first row and column, the window sum is 400 instead of 1675, and the dim centre pixel comes out white |
| Tools.BrightCornerCorrected | RubikCube/RubikCube/Tools/Tools.cs:141-155 | with the whole window summed, the same centre pixel comes out black |
| Tools.WindowTotal | RubikCube/RubikCube/Tools/Tools.cs:173-180 | the two window loops compute the pixel sum of the (2*border+1)-square window |
| Tools.ApplyCustomAdaptiveThreshold | RubikCube/RubikCube/Tools/Tools.cs:162-188 | fails iff `windowSize / 2` is negative; otherwise binary and of the input's size, 0 within windowSize/2 of an edge, and inside 255 iff the pixel exceeds the window mean minus C |
| Tools.WindowOfOne | RubikCube/RubikCube/Tools/Tools.cs:162-188 | with a window of one pixel, each pixel is compared with its own mean minus C |
| Tools.SobelBounds | RubikCube/RubikCube/Tools/Tools.cs:200-201 | on a byte image both Sobel sums lie in [-1020, 1020], so the double accumulators are exact |
| Tools.Sobel | RubikCube/RubikCube/Tools/Tools.cs:192-215 | binary, of the input's size, with a zero border; an inner pixel is 255 iff the angle of the integer Sobel sums is approximately diagonal and their magnitude reaches T |
| Tools.DiagonalIsMinusFortyFiveBin | RubikCube/RubikCube/Tools/Tools.cs:217-231 | an angle is approximately diagonal iff the thinning stage puts it in its -45 degree bin or it is one of the two endpoints -22.5 and 157.5 that this bin leaves open |
| Tools.FlatImageHasNoEdges | RubikCube/RubikCube/Tools/Tools.cs:192-215 | a flat image has no Sobel edges when atan2(0, 0) is 0 |
| HarrisOperator.KernelSumsAreSobelSums | RubikCube/RubikCube/Tools/Segmentation.cs:41-76 | the kernel loops over the Sobel kernels compute the closed-form Sobel sums |
| HarrisOperator.CalculateGradients | RubikCube/RubikCube/Tools/Segmentation.cs:55-84 | both images have the input's size, the outermost rows and columns are 0, and each inner pixel holds the integer Sobel-X / Sobel-Y sum |
| HarrisOperator.ProductsOfByteImage | RubikCube/RubikCube/Tools/Segmentation.cs:65-79 | the gradients of a byte image lie in [-1020, 1020], so they and their products are exact in a float |
| HarrisOperator.CalculateGradientProducts | RubikCube/RubikCube/Tools/Segmentation.cs:86-106 | fails iff Iy is smaller than Ix; otherwise the three images are the pointwise Ix^2 >= 0, Iy^2 >= 0 and Ix*Iy |
| HarrisOperator.UnsmoothedDeterminantVanishes | RubikCube/RubikCube/Tools/Segmentation.cs:133-151 | before smoothing, the structure matrix of every pixel is singular |
| HarrisOperator.IsLocalMaximum | RubikCube/RubikCube/Tools/Segmentation.cs:204-218 | true iff no pixel of the 3-by-3 window exceeds the centre |
| HarrisOperator.IsStrongestResponseWithinDistance | RubikCube/RubikCube/Tools/Segmentation.cs:182-202 | true iff no in-bounds pixel within Chebyshev distance minDistance exceeds the centre |
| HarrisOperator.ApplyThresholdingAndNonMaximumSuppression | RubikCube/RubikCube/Tools/Segmentation.cs:157-180 | the result is exactly the set of points inside the 10-pixel margin that exceed the threshold, are 3-by-3 maxima and are strongest within minDistance; they are listed in strictly increasing row-major order, so without repeats |
| HarrisOperator.StrongestImpliesLocalMax | RubikCube/RubikCube/Tools/Segmentation.cs:169-171 | with minDistance >= 1 the wider test implies the 3-by-3 one |
| HarrisOperator.FlatResponseSelectsAll | RubikCube/RubikCube/Tools/Segmentation.cs:157-202 | ties are not broken: on a flat response above the threshold every point inside the margin is selected |
| CubeFaceCropping.LastMovable | RubikCube/RubikCube/Tools/Segmentation.cs:302-304 | the backward scan stops at the last index not at its maximum `count - size + i`, and every later index is at its maximum |
| CubeFaceCropping.AdvanceIsValid | RubikCube/RubikCube/Tools/Segmentation.cs:308-310 | incrementing a movable index and resetting the later ones gives a strictly increasing in-range tuple, lexicographically later |
| CubeFaceCropping.RemainingDecreases | RubikCube/RubikCube/Tools/Segmentation.cs:298-311 | a lexicographically later valid tuple has a smaller remaining count, so the loop ends |
| CubeFaceCropping.Enumerate | RubikCube/RubikCube/Tools/Segmentation.cs:298-311 | the yielded tuples are valid, start at the current one, and are in strictly increasing lexicographic order |
| CubeFaceCropping.IndexCombinations | RubikCube/RubikCube/Tools/Segmentation.cs:288-312 | nothing when size > count or size < 1; otherwise strictly increasing index tuples in strictly increasing lexicographic order |
| CubeFaceCropping.GetCombinations | RubikCube/RubikCube/Tools/Segmentation.cs:288-312 | one list of `size` points per index tuple, picking the corners at those indices |
| CubeFaceCropping.FirstAtLimitIsFinal | RubikCube/RubikCube/Tools/Segmentation.cs:298 | the loop guard's first index reaches count - size exactly at the last tuple |
| CubeFaceCropping.StuckIsFinal | RubikCube/RubikCube/Tools/Segmentation.cs:302-306 | no index can move exactly at the last tuple |
| CubeFaceCropping.FirstIsLeast | RubikCube/RubikCube/Tools/Segmentation.cs:294-296 | the starting tuple 0..size-1 is the least valid tuple |
| CubeFaceCropping.AdvanceIsSuccessor | RubikCube/RubikCube/Tools/Segmentation.cs:302-310 | no valid tuple lies strictly between a tuple and its advance |
| CubeFaceCropping.EnumerateComplete | RubikCube/RubikCube/Tools/Segmentation.cs:298-311 | with the inclusive guard every valid tuple at or after the start is enumerated |
| CubeFaceCropping.EnumerateDropsFinal | RubikCube/RubikCube/Tools/Segmentation.cs:298 | the written guard enumerates the inclusive sequence without its last tuple |
| CubeFaceCropping.AllCombinations | RubikCube/RubikCube/Tools/Segmentation.cs:288-312 | corrected generator: nonempty, from the first tuple to the last, containing every valid tuple |
| CubeFaceCropping.CombinationsMissFinal | RubikCube/RubikCube/Tools/Segmentation.cs:298 | as written the generator yields all but the last tuple, never the last, and nothing at all when size == count |
| CubeFaceCropping.AllCornersOnly | RubikCube/RubikCube/Tools/Segmentation.cs:291-298 | with exactly `size` corners the corrected generator yields the corners themselves and the written one yields nothing |
| CubeFaceCropping.Area | RubikCube/RubikCube/Tools/Segmentation.cs:378-387 | the area is non-negative and twice it is the absolute shoelace sum |
| CubeFaceCropping.CalculateQuadrilateralArea | RubikCube/RubikCube/Tools/Segmentation.cs:371-388 | throws iff not given exactly 4 points; otherwise half the absolute shoelace sum |
| CubeFaceCropping.AreaRotation | RubikCube/RubikCube/Tools/Segmentation.cs:380-387 | rotating the point list cyclically keeps the area |
| CubeFaceCropping.AreaReversal | RubikCube/RubikCube/Tools/Segmentation.cs:380-387 | reversing the orientation negates the shoelace sum and keeps the area |
| CubeFaceCropping.AreaTranslation | RubikCube/RubikCube/Tools/Segmentation.cs:380-387 | translating all four points keeps the area |
| CubeFaceCropping.RectangleArea | RubikCube/RubikCube/Tools/Segmentation.cs:378-387 | an axis-aligned w-by-h rectangle has area w*h |
| CubeFaceCropping.SinglePointHasNoArea | RubikCube/RubikCube/Tools/Segmentation.cs:378-387 | four copies of one point have area 0, so such a set is never chosen |
| CubeFaceCropping.SortedFirst | RubikCube/RubikCube/Tools/Segmentation.cs:400-403 | the first element of a stable ascending (descending) sort is the first position of the least (greatest) key |
| CubeFaceCropping.OrderCorners | RubikCube/RubikCube/Tools/Segmentation.cs:390-406 | throws iff not given exactly 4 corners; otherwise top-left, top-right, bottom-right and bottom-left are the corners with the first least/greatest plain and mirrored keys |
| CubeFaceCropping.SumPermutation | RubikCube/RubikCube/Tools/Segmentation.cs:396-397 | the centre does not depend on the order of the corners |
| CubeFaceCropping.OrderIndependent | RubikCube/RubikCube/Tools/Segmentation.cs:390-406 | with distinct keys, any permutation of the corners is ordered identically |
| CubeFaceCropping.LeftCornersDiffer | RubikCube/RubikCube/Tools/Segmentation.cs:400-405 | when two plain keys differ, top-left and bottom-left are different corners |
| CubeFaceCropping.Measure | RubikCube/RubikCube/Tools/Segmentation.cs:267-273 | a candidate keeps its unordered quad and has a non-negative area |
| CubeFaceCropping.ConsiderStep | RubikCube/RubikCube/Tools/Segmentation.cs:275-282 | one iteration keeps the walk's meaning: none chosen iff nothing qualified so far; the choice is a seen candidate with its own area and score; no seen candidate beats it |
| CubeFaceCropping.Walk | RubikCube/RubikCube/Tools/Segmentation.cs:262-283 | after all candidates that meaning holds for the whole list |
| CubeFaceCropping.WalkResult | RubikCube/RubikCube/Tools/Segmentation.cs:262-285 | over the measured combinations the walk ends with null iff no combination has positive area and a score below double.MaxValue; otherwise it ends with one of the combinations, which qualifies and which no combination beats on both area and score |
| CubeFaceCropping.FilterCubeFaceCorners | RubikCube/RubikCube/Tools/Segmentation.cs:254-286 | fewer than 4 corners are returned unchanged; otherwise null iff no combination has positive area and a score below double.MaxValue, and else one of the enumerated quads that qualifies and that no combination beats on both area and score |
| CubeFaceCropping.ChosenIsCombination | RubikCube/RubikCube/Tools/Segmentation.cs:265 | the chosen quadrilateral is the corners at some strictly increasing index 4-tuple |
| CubeFaceCropping.SelectCubeFace | RubikCube/RubikCube/Tools/Segmentation.cs:222-226 | ordering the filtered corners succeeds iff there were at least 4 corners and the filter chose a quad; the result is that quad ordered, with positive area |
| CubeFaceCropping.FourCornersFinding | RubikCube/RubikCube/Tools/Segmentation.cs:254-298 | with exactly 4 corners the written filter returns null and the crop throws; with the corrected generator it succeeds iff the four corners qualify, returning them ordered |
| Preprocessing.MultiplyMatrices | RubikCube/RubikCube/Tools/Preprocessing.cs:364-394 | throws when the inner sizes differ (or a first row is missing or short); otherwise an aRows x bCols matrix |
| Preprocessing.MultiplyByIdentity | RubikCube/RubikCube/Tools/Preprocessing.cs:364-394 | the identity is a unit on both sides of the product |
| Preprocessing.Eliminate | RubikCube/RubikCube/Tools/Preprocessing.cs:423-447 | a step fails iff its pivot is exactly 0; otherwise the pivot becomes 1 and the rest of its column 0 |
| Preprocessing.InvertMatrix | RubikCube/RubikCube/Tools/Preprocessing.cs:396-460 | a short row throws; a zero top-left pivot throws; a result is n-by-n |
| Preprocessing.InvertDiagonal | RubikCube/RubikCube/Tools/Preprocessing.cs:396-460 | a diagonal matrix with nonzero entries inverts to the diagonal of the reciprocals |
| Preprocessing.InvertIdentity | RubikCube/RubikCube/Tools/Preprocessing.cs:396-460 | the identity inverts to itself |
| Preprocessing.SwapMatrixIsRejected | RubikCube/RubikCube/Tools/Preprocessing.cs:426-430 | without row exchanges the invertible swap matrix is reported singular |
| Preprocessing.TransformPointToMatrix | RubikCube/RubikCube/Tools/Preprocessing.cs:335-338 | a point becomes the 3x1 column [x, y, 1] |
| Preprocessing.CalculatePMatrix | RubikCube/RubikCube/Tools/Preprocessing.cs:340-355 | rows of the x's and the y's of all points but the last, over a row of three ones |
| Preprocessing.PMatrixOfFourPoints | RubikCube/RubikCube/Tools/Preprocessing.cs:340-355 | for 4 points it is the 3x3 matrix whose columns are the homogeneous coordinates of the first three |
| Preprocessing.CalculateBVector | RubikCube/RubikCube/Tools/Preprocessing.cs:357-362 | a failing inversion propagates its error; a result has the second matrix's column count and the first's row count |
| Preprocessing.BVectorIsColumn | RubikCube/RubikCube/Tools/Preprocessing.cs:256-257 | for an invertible 3x3 P matrix, b = P^-1 [x, y, 1] is a 3x1 column |
| Preprocessing.MultiplyNumberWithMatrix | RubikCube/RubikCube/Tools/Preprocessing.cs:320-333 | keeps the shape and multiplies every entry by the number |
| Preprocessing.ScalingCompounds | RubikCube/RubikCube/Tools/Preprocessing.cs:320-333 | since the argument is scaled in place, scaling it twice is one scaling by the product; scaling by 1 changes nothing |
| Preprocessing.Window | RubikCube/RubikCube/Tools/Preprocessing.cs:45-55 | the 25 pixels of the 5x5 window, row by row |
| Preprocessing.DistanceMatrix | RubikCube/RubikCube/Tools/Preprocessing.cs:66-94 | symmetric, zero diagonal, and the colour distance above the diagonal |
| Preprocessing.NewColorIsFirstMinimiser | RubikCube/RubikCube/Tools/Preprocessing.cs:96-106 | `IndexOf(Min())` picks a row of least sum, and no earlier row has that sum |
| Preprocessing.Denoising | RubikCube/RubikCube/Tools/Preprocessing.cs:23-41 | same size; a 2-pixel black border; each inner pixel is one of the 25 pixels of its window |
| Preprocessing.DenoisingPicksVectorMedian | RubikCube/RubikCube/Tools/Preprocessing.cs:23-64 | an inner pixel is the first window pixel, in row-major order, whose summed distance to the window is least |
| Preprocessing.InsertInString | RubikCube/RubikCube/Tools/Preprocessing.cs:513-519 | succeeds iff the position is a character of the string; then only that character changes |
| Preprocessing.InsertInStringReplacesCell | RubikCube/RubikCube/Tools/Preprocessing.cs:513-519 | within the string this inserter is exactly a single-character update at the cell's position, so the generic scan lemmas apply to it |
| Preprocessing.ConvertImageToString | RubikCube/RubikCube/Tools/Preprocessing.cs:463-481 | on a square mask it writes the code into exactly the winning cells |
| Preprocessing.EncodersAgreeOnSquareMasks | RubikCube/RubikCube/Tools/Preprocessing.cs:463-519 | on square masks the two encoder copies return the same face string |
| Preprocessing.InsertersDifferPastTheEnd | RubikCube/RubikCube/Tools/Preprocessing.cs:516 | one past the end, this inserter throws where the guarded one appends |
| Images.Half | RubikCube/RubikCube/Tools/Tools.cs:135-138 | `dim / 2` truncates toward zero: the Euclidean half for non-negative values, and for a negative one the unique q with a <= 2q <= a + 1 (so -3 gives -1) |
| Images.CDiv | RubikCube/RubikCube/Tools/ConvertImagesToString.cs:133 | C#'s `i / incrementFactor` rounds toward zero for every sign: q*b is at most a in magnitude, within one divisor of it, and never of the opposite sign |
| Images.TruncationIsUnique | RubikCube/RubikCube/Tools/ConvertImagesToString.cs:133 | exactly one quotient rounds toward zero, and it is `CDiv`'s, so `CDiv` is C#'s `/` |
| Images.HalfIsCDiv | RubikCube/RubikCube/Tools/Tools.cs:135-138 | `Half` agrees with the truncating division by 2 on every input |
| Images.ClampToByte | RubikCube/RubikCube/Tools/HighPassFilters.cs:214 | `(byte)Math.Min(Math.Max(v, 0), 255)` is a byte: 0 below, 255 above, the truncation in between |
| Images.FirstArgMin | RubikCube/RubikCube/Tools/Preprocessing.cs:105 | a position of the least value, with no earlier position holding it |

## Left out

- The user interface, the background worker, file and directory I/O, and the image files. `LoadImagesFromFolder`, `GetAllSubfolders`, `IsImageFile`'s file system side, `SolveRedCase` and everything in the view models are left out. Folders and mask files are given to the model as lists. `SolveRedCase` deletes and saves files; the mask union it performs is modelled as `CombineTwoImage`.
- Grey and HSV conversion (`ConvertToGrayscale`, `ConvertToHSV`), `Copy`, the histogram, equalisation and plotting code, and the Bitmap/WPF conversions are left out. They are double arithmetic with truncation or foreign library calls. The HSV conversion is a parameter of `ColorsMapping.ApplyColorThresholdingToAllSides`.
- `GenerateGaussianKernel` (exp) is left out. The blur takes the kernel as an input.
- `ApplyGaussianSmoothing` and `CalculateHarrisResponse` (float smoothing and the det/trace response) are left out. Corner selection takes the response image as an input.
- `DetectHarrisCorners` and `ApplyCannyEdgeDetectorForColor` only compose stages; the composition is not restated.
- HighPassFilters' `CalculateGradients` (sqrt magnitude, atan2 direction) is left out. Thinning takes the gradient field as an input, and the tangent weight is a parameter.
- `CalculateAspectRatio`, `CalculateAngleConsistency`, `CalculateAngle` and `DistanceBetweenPoints` (sqrt, acos) are left out. The filter takes their combined score as a function of the ordered quad.
- The perspective warp is left out: `ProjectionTransformation`, `CalculateAMatrix`, `CalculateResultForOneChannel` and the final `Resize`. The matrix helpers they call are modelled. `SelectCubeFace` stops at the ordered corners.
- CubeFaceCropping.OrderCorners: atan2 is a parameter, so the contract states which corner holds the extreme key rather than a geometric position.
- CubeFaceCropping.CalculateQuadrilateralArea: the C# products `X * Y` are 32-bit and can wrap for coordinates above about 46000. The model multiplies unbounded integers.
- Preprocessing.InvertMatrix: entries are exact reals rather than doubles. Beyond the error paths, the inverse is proved correct only for diagonal matrices.
- Preprocessing.MultiplyMatrices: exact reals, and the contract is structural (shape and errors) plus the identity laws.
- Preprocessing.MultiplyNumberWithMatrix: returns the scaled value instead of updating the caller's list. `ScalingCompounds` states what the aliasing means for a caller that scales the same list twice.
- Preprocessing.Denoising: the float Euclidean colour distance is a parameter, and float rounding of the row sums is not modelled.
- Facelets.ConvertImageToString and Preprocessing.ConvertImageToString require a mask at least 3 pixels wide. For narrower masks the cell size is 0 and the loops never advance, so the program does not terminate.
- Facelets.ToLower lower-cases ASCII letters only. The encoder only produces ASCII letters.
- Tools.AdaptiveThresholding: the byte threshold `(byte)(0.85 * mean)` is a parameter. `ScaledMean` is its exact-real reading, used in the worked example.
- Tools.ApplyCustomAdaptiveThreshold: the mean `sum / (windowSize * windowSize)` minus C is a parameter. For an even window size the program sums (windowSize+1)^2 pixels but divides by windowSize^2; the model keeps the program's window.
- Tools.Sobel: atan2 and the magnitude are parameters.
- HighPassFilters.NonMaximumSuppression: the tangent weight is a parameter and the field is given as reals.
- HighPassFilters.ApplyGaussianBlur: a kernel whose size is even reads one element past the kernel. The model reports this as an index error instead of stating the pixels written before the throw.
- HighPassFilters.ApplyGaussianBlur: the weighted window sum is read as an exact real, while the program accumulates it in doubles and then truncates it with `(byte)`. An inner value can therefore be one lower in the program: with the 3x3, sigma 1 kernel the pipeline uses, a flat channel of 3 can sum to just under 3 in doubles and then be stored as 2.
- HighPassFilters.NormalisedKernelKeepsFlatChannel: a fact about the exact-real reading of the blur only. The generated double kernels do not sum to exactly one, and the double sum can fall just below the flat value, so the program can lower a flat channel by one.
- Double comparisons involving NaN or infinities are not modelled.

## Findings

| source | as written | input that shows it | evidently intended | confidence | as-written member | corrected member |
|---|---|---|---|---|---|---|
| RubikCube/RubikCube/Tools/Segmentation.cs:298 | `while (indices[0] < count - combinationSize)` exits before the last combination, whose first index is `count - combinationSize`; with exactly `combinationSize` points nothing is yielded | exactly 4 detected corners: no quadrilateral is enumerated, `FilterCubeFaceCorners` returns null and `OrderCorners` throws | `<=`, so that every 4-subset is enumerated | not executed | CubeFaceCropping.CombinationsMissFinal | CubeFaceCropping.AllCombinations |
| RubikCube/RubikCube/Tools/Tools.cs:141 | `integral[y1,x1] - integral[y0,x1] - integral[y1,x0] + integral[y0,x0]` sums rows y0+1..y1 and columns x0+1..x1 only, yet line 142 divides by the full window count | the 3x3 image with first row and column 255 and the rest 100, `dim` 3: the centre's window sum is 400 instead of 1675, so the centre pixel (100) is kept as white although it is far below 0.85 of its window mean | subtract the integral at row y0-1 and column x0-1 (nothing at the image edge), so the whole window is summed | not executed | Tools.BrightCornerAsWritten | Tools.BrightCornerCorrected |

Both findings are modelled twice. `CubeFaceCropping.GetCombinations`, `FilterCubeFaceCorners` and `SelectCubeFace` take an `inclusive` flag: `false` gives the loop guard as written and `true` the corrected one. `CubeFaceCropping.FourCornersFinding` contrasts the two on four corners. `Tools.AdaptiveThresholding` is the filter as written and `Tools.AdaptiveThresholdingCorrected` the corrected one.
