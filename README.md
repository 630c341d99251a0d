# OpticalBro pixel core in Dafny

OpticalBro is an Android optical-flow demo. On every camera preview frame its `DrawOnTop`
view takes the luma plane of the YUV420SP (NV21) buffer and downscales it into a grayscale
raster. It then forms the Horn–Schunck brightness gradients `E_x`, `E_y` and `E_t` between
the previous raster and the current one, and keeps the current raster for the next frame.

This project models the integer part of that pipeline in `MainActivity.java`:

- the grayscale decoder;
- the gradient loops;
- the copy into the previous-frame raster;
- the full-colour NV21 decoder with its fixed-point BT.601 arithmetic and ARGB packing;
- `getNeighborAverage` up to its final division, as written and with the sum kept exact;
- the two reshaping helpers;
- the nearest-preview-size search.

Java's `int[][]` rasters are `array2<int>`, `float[][]` is `array2<real>` and `byte[]` is `array<Byte>`. `Byte` is the
signed range [-128, 127], and `Unsigned` matches `0xFF & b`. Packed ARGB words are Java
`int` values.

Each loop of the source is a method with loop invariants. Some loops are split into a row
helper and, for the colour decoder, a pixel helper. The split changes nothing in what is
computed. Each method is specified by a function of its inputs, and the promised
properties are proved as lemmas about those functions.

Files:

- `rasters.dfy`: row-major offsets and the running row start.
- `luma.dfy`: the grayscale decoder and its corrected variant.
- `gradients.dfy`: the gradient loops.
- `nv21.dfy`: the colour decoder.
- `neighbors.dfy`: `getNeighborAverage` up to its final division.
- `reshape.dfy`: `reshapeTo2D` and `reshapeTo1DandThreshold`.
- `frame.dfy`: the `DrawOnTop` state, its set-up and `onDraw`.
- `preview_size.dfy`: `getPreviewSize`.

## Model

| member | source | states |
|---|---|---|
| Rasters.Unsigned | OpticalBro/app/src/main/java/edu/mit/web/opticalbro/MainActivity.java:405 | `0xFF & b` of a Java byte lies in [0, 255] |
| Rasters.RowMajorInRange | OpticalBro/app/src/main/java/edu/mit/web/opticalbro/MainActivity.java:411-417 | each cell (j, i) of a width × height window has an offset below width * height, and division and remainder by width give (j, i) back |
| Rasters.RowMajorInverse | OpticalBro/app/src/main/java/edu/mit/web/opticalbro/MainActivity.java:411-417 | every offset below width * height belongs to exactly the cell (k / width, k % width), so the reshape loops cover the buffer prefix |
| Rasters.RowStartIsRowMajor | OpticalBro/app/src/main/java/edu/mit/web/opticalbro/MainActivity.java:412-413 | the running `pix` pointer, advanced one row at a time, starts row j at j * width |
| Luma.GrayIndex | OpticalBro/app/src/main/java/edu/mit/web/opticalbro/MainActivity.java:403-407 | the offset the decoder reads for cell (j, i): the counter has moved d per cell and (d - 1)·width more per finished row, j·(2d-1)·width + i·d |
| Luma.ExpectedFrameLength | OpticalBro/app/src/main/java/edu/mit/web/opticalbro/MainActivity.java:654 | `dataLengthExpected`: d·d·width·height·3/2 with Java's truncating division, the YUV420SP length of the full-resolution frame |
| Luma.ExpectedLengthHoldsLumaPlane | OpticalBro/app/src/main/java/edu/mit/web/opticalbro/MainActivity.java:654 | a buffer of the expected length d·d·width·height·3/2 holds the whole d·d·width·height luma plane |
| Luma.GrayColumnStep | OpticalBro/app/src/main/java/edu/mit/web/opticalbro/MainActivity.java:404 | inside a row the decoder's pointer moves d bytes per cell |
| Luma.GrayRowStep | OpticalBro/app/src/main/java/edu/mit/web/opticalbro/MainActivity.java:407 | the extra (d - 1)·width step at the end of a row lands on the first offset of the next row |
| Luma.LumaOnly | OpticalBro/app/src/main/java/edu/mit/web/opticalbro/MainActivity.java:402-408 | for d ≥ 1 every offset the grayscale decoder reads is below d·d·width·height: chroma is never read |
| Luma.UnscaledDecodeIsRowMajor | OpticalBro/app/src/main/java/edu/mit/web/opticalbro/MainActivity.java:403-408 | with d = 1 cell (j, i) reads byte j·width + i, a plain row-major copy of the luma plane |
| Luma.GrayIndexBelowLast | OpticalBro/app/src/main/java/edu/mit/web/opticalbro/MainActivity.java:403-408 | no cell is read beyond the offset of the last cell (height - 1, width - 1), so the decoder stays in its array exactly when that offset does |
| Luma.LumaPlaneMeetsGrayFits | OpticalBro/app/src/main/java/edu/mit/web/opticalbro/MainActivity.java:403-408 | a buffer holding the luma plane is long enough for the decoder |
| Luma.SweepMeetsGrayFits | OpticalBro/app/src/main/java/edu/mit/web/opticalbro/MainActivity.java:403-408 | a buffer of height·(2d-1)·width bytes is long enough as well, and for d ≥ 2 and a non-empty raster it is strictly shorter than the luma plane |
| Luma.UniformLumaDecodesUniform | OpticalBro/app/src/main/java/edu/mit/web/opticalbro/MainActivity.java:403-408 | a luma plane holding one byte value k makes every read of the decoder return k |
| Luma.DecodeGrayscale | OpticalBro/app/src/main/java/edu/mit/web/opticalbro/MainActivity.java:398-409 | for any buffer that holds the last byte read, every cell (j, i) becomes the unsigned byte at j·(2d-1)·width + i·d, which lies inside the luma plane, so the cell lies in [0, 255] |
| Luma.StrideMissesDecimation | OpticalBro/app/src/main/java/edu/mit/web/opticalbro/MainActivity.java:407 | for d ≥ 2 the first cell of the second row is read before the luma sample at full-resolution row d |
| Luma.StrideRowStart | OpticalBro/app/src/main/java/edu/mit/web/opticalbro/MainActivity.java:407 | raster row j starts at full-resolution row ((2d-1)·j)/d, column (((2d-1)·j) mod d)·width, so the rows drift sideways and wrap |
| Luma.DecimatedIndex | OpticalBro/app/src/main/java/edu/mit/web/opticalbro/MainActivity.java:403-407 | corrected offset of cell (j, i): (j·d)·(d·width) + i·d, the point sample of a decimation by d |
| Luma.DecimatedIndexInFrame | OpticalBro/app/src/main/java/edu/mit/web/opticalbro/MainActivity.java:398-409 | the corrected offset of cell (j, i) is the full-resolution pixel (j·d, i·d) of the d·width × d·height frame, inside the luma plane |
| Luma.DecimatedSteps | OpticalBro/app/src/main/java/edu/mit/web/opticalbro/MainActivity.java:404-407 | moving d per cell and (d - 1)·d·width per row end reaches exactly the decimated offsets |
| Luma.DecodeGrayscaleDecimated | OpticalBro/app/src/main/java/edu/mit/web/opticalbro/MainActivity.java:398-409 | corrected decoder: cell (j, i) is the unsigned luma of full-resolution pixel (j·d, i·d) and lies in [0, 255] |
| Gradients.SumX | OpticalBro/app/src/main/java/edu/mit/web/opticalbro/MainActivity.java:271-278 | the eight-term sum of E_x: right column minus left column of the 2 × 2 block, in both frames |
| Gradients.SumY | OpticalBro/app/src/main/java/edu/mit/web/opticalbro/MainActivity.java:279-286 | the eight-term sum of E_y: lower row minus upper row of the 2 × 2 block, in both frames |
| Gradients.SumT | OpticalBro/app/src/main/java/edu/mit/web/opticalbro/MainActivity.java:288-295 | the eight-term sum of E_t: the current block's four cells minus the previous block's four |
| Gradients.Shr2 | OpticalBro/app/src/main/java/edu/mit/web/opticalbro/MainActivity.java:278 | Java's arithmetic `>> 2`: the floor of a quarter, 4r ≤ s < 4r + 4, negative sums included |
| Gradients.GradX | OpticalBro/app/src/main/java/edu/mit/web/opticalbro/MainActivity.java:271-278 | E_x at a block: its sum shifted right by two |
| Gradients.GradY | OpticalBro/app/src/main/java/edu/mit/web/opticalbro/MainActivity.java:279-286 | E_y at a block: its sum shifted right by two |
| Gradients.GradT | OpticalBro/app/src/main/java/edu/mit/web/opticalbro/MainActivity.java:288-295 | the temporal term of E_t at a block, before the fps scaling: its sum shifted right by two |
| Gradients.CubeAt | OpticalBro/app/src/main/java/edu/mit/web/opticalbro/MainActivity.java:271-295 | the eight samples of block (j, i): rows j and j + 1 and columns i and i + 1 of the previous and the current raster |
| Gradients.GradientsOfBytesInRange | OpticalBro/app/src/main/java/edu/mit/web/opticalbro/MainActivity.java:271-295 | with eight samples in [0, 255], each eight-term sum lies in [-1020, 1020] and each gradient in [-255, 255] |
| Gradients.SwappingFramesKeepsSpatialGradients | OpticalBro/app/src/main/java/edu/mit/web/opticalbro/MainActivity.java:271-295 | exchanging the frames leaves E_x and E_y unchanged and negates the temporal sum |
| Gradients.StillCubeHasNoTemporalGradient | OpticalBro/app/src/main/java/edu/mit/web/opticalbro/MainActivity.java:288-295 | identical previous and current samples give temporal term 0 |
| Gradients.BrightenedCubeHasTemporalGradient | OpticalBro/app/src/main/java/edu/mit/web/opticalbro/MainActivity.java:288-295 | current = previous + k at all four cells gives temporal term k |
| Gradients.FlatCubeHasNoSpatialGradient | OpticalBro/app/src/main/java/edu/mit/web/opticalbro/MainActivity.java:271-286 | spatially constant frames give E_x = E_y = 0 |
| Gradients.SpatialGradientsIgnoreFrameOrder | OpticalBro/app/src/main/java/edu/mit/web/opticalbro/MainActivity.java:268-286 | over whole rasters, E_x and E_y are the same with prev and curr exchanged |
| Gradients.BrightenedFrameHasTemporalGradient | OpticalBro/app/src/main/java/edu/mit/web/opticalbro/MainActivity.java:288-297 | over whole rasters, curr = prev + k everywhere gives temporal term k at every block, and 0 when prev == curr |
| Gradients.FlatFramesHaveNoSpatialGradient | OpticalBro/app/src/main/java/edu/mit/web/opticalbro/MainActivity.java:268-286 | over whole rasters, two constant frames give E_x = E_y = 0 at every block |
| Gradients.GradientsOfLumaInRange | OpticalBro/app/src/main/java/edu/mit/web/opticalbro/MainActivity.java:268-297 | over whole rasters of luma values the three gradients stay in [-255, 255] |
| Gradients.ComputeGradients | OpticalBro/app/src/main/java/edu/mit/web/opticalbro/MainActivity.java:268-297 | every cell of the (H-1) × (W-1) outputs holds E_x, E_y and the unscaled temporal term of the 2 × 2 block of prev and curr at that cell |
| Gradients.GradientRow | OpticalBro/app/src/main/java/edu/mit/web/opticalbro/MainActivity.java:269-296 | one pass of the inner loop fills row j of the three outputs and leaves their other rows unchanged |
| Nv21.LumaTerm | OpticalBro/app/src/main/java/edu/mit/web/opticalbro/MainActivity.java:374-375 | the offset luma lies in [0, 239] and is the unsigned byte minus 16 whenever that is not negative |
| Nv21.ChromaTerm | OpticalBro/app/src/main/java/edu/mit/web/opticalbro/MainActivity.java:377-378 | each offset chroma sample lies in [-128, 127] |
| Nv21.ChannelSumsFitInt32 | OpticalBro/app/src/main/java/edu/mit/web/opticalbro/MainActivity.java:381-384 | for all byte inputs the three channel sums stay within 2^20 of zero, so the `int` arithmetic never wraps |
| Nv21.Clamp18 | OpticalBro/app/src/main/java/edu/mit/web/opticalbro/MainActivity.java:386-391 | the clamp yields a value in [0, 0x3FFFF] |
| Nv21.Pack | OpticalBro/app/src/main/java/edu/mit/web/opticalbro/MainActivity.java:393 | the packing of three clamped 18-bit channels as the integer value of the Java word: alpha 0xFF plus the top eight bits of each channel |
| Nv21.PackChannels | OpticalBro/app/src/main/java/edu/mit/web/opticalbro/MainActivity.java:393 | the packed word is a negative Java int with alpha 0xFF, and its red, green and blue bytes are the 18-bit inputs divided by 1024 |
| Nv21.FieldsOfWord | OpticalBro/app/src/main/java/edu/mit/web/opticalbro/MainActivity.java:393 | the channel readers recover alpha 0xFF and the three byte fields of a word built from them |
| Nv21.JavaPackIsFieldSum | OpticalBro/app/src/main/java/edu/mit/web/opticalbro/MainActivity.java:393 | on 32-bit words, the source's OR of masked shifts equals alpha plus the three shifted top bytes, each at most 0xFF |
| Nv21.ArgbOf | OpticalBro/app/src/main/java/edu/mit/web/opticalbro/MainActivity.java:381-393 | the fixed-point BT.601 sums 1192y + 1634v, 1192y - 833v - 400u and 1192y + 2066u, each clamped, then packed |
| Nv21.PixelOf | OpticalBro/app/src/main/java/edu/mit/web/opticalbro/MainActivity.java:374-393 | one pixel from its luma byte and its chroma pair, with the offset luma and chroma terms |
| Nv21.PixelAt | OpticalBro/app/src/main/java/edu/mit/web/opticalbro/MainActivity.java:370-393 | the pixel of cell (j, i): luma byte j·width + i with the chroma pair of its 2 × 2 block |
| Nv21.RowPixel | OpticalBro/app/src/main/java/edu/mit/web/opticalbro/MainActivity.java:374-393 | pixel i of a row whose luma starts at `pix` and whose chroma pairs start at `uvp`: luma byte pix + i, V at uvp + 2·(i/2) and U after it |
| Nv21.PixelChannels | OpticalBro/app/src/main/java/edu/mit/web/opticalbro/MainActivity.java:374-393 | every decoded pixel is opaque, and each channel is its clamped BT.601 sum divided by 1024, at most 0xFF |
| Nv21.NeutralChromaIsGrey | OpticalBro/app/src/main/java/edu/mit/web/opticalbro/MainActivity.java:374-393 | chroma bytes 128 give equal red, green and blue, and that grey level does not decrease as luma grows |
| Nv21.BlackLevelIsBlack | OpticalBro/app/src/main/java/edu/mit/web/opticalbro/MainActivity.java:374-393 | luma at or below 16 with neutral chroma gives the opaque black word 0xFF000000 |
| Nv21.RowChromaStart | OpticalBro/app/src/main/java/edu/mit/web/opticalbro/MainActivity.java:371 | the chroma row of pixel row j starts at frameSize + (j >> 1)·width |
| Nv21.ChromaIndex | OpticalBro/app/src/main/java/edu/mit/web/opticalbro/MainActivity.java:371-378 | pixel (j, i) reads the V byte at RowChromaStart + 2·(i/2) and the U byte after it |
| Nv21.ChromaColumn | OpticalBro/app/src/main/java/edu/mit/web/opticalbro/MainActivity.java:376-378 | column i reads the pair at 2·(i/2) of its chroma row, and after column i the pointer has advanced 2·((i+1)/2) |
| Nv21.ReadsInBuffer | OpticalBro/app/src/main/java/edu/mit/web/opticalbro/MainActivity.java:371-378 | when the last chroma pair fits, every luma read is below width·height and every chroma read lies from width·height to the end of the buffer |
| Nv21.BlockSharesChroma | OpticalBro/app/src/main/java/edu/mit/web/opticalbro/MainActivity.java:371-378 | the four pixels of each 2 × 2 block read the same chroma pair |
| Nv21.StandardFrameFits | OpticalBro/app/src/main/java/edu/mit/web/opticalbro/MainActivity.java:366-396 | for even dimensions a frame of width·height·3/2 bytes holds every chroma pair the decoder reads |
| Nv21.RowReadsInBuffer | OpticalBro/app/src/main/java/edu/mit/web/opticalbro/MainActivity.java:370-371 | row j's luma starts at j·width and its luma and chroma reads fit in the buffer |
| Nv21.RowIsCells | OpticalBro/app/src/main/java/edu/mit/web/opticalbro/MainActivity.java:370-378 | pixel i of row j, read from the row's running luma and chroma pointers, is the pixel of cell (j, i) |
| Nv21.RowsAreCells | OpticalBro/app/src/main/java/edu/mit/web/opticalbro/MainActivity.java:370-395 | a buffer filled row by row from the running pointers holds the pixel of cell (j, i) at j·width + i |
| Nv21.DecodeYuv420sp | OpticalBro/app/src/main/java/edu/mit/web/opticalbro/MainActivity.java:366-396 | word j·width + i of `rgb` is the pixel of luma byte j·width + i and the chroma pair of its 2 × 2 block; words from width·height on are unchanged |
| Nv21.DecodeFrameRow | OpticalBro/app/src/main/java/edu/mit/web/opticalbro/MainActivity.java:371-394 | one pass of the outer loop writes row j at its running start and moves `pix` to the next row |
| Nv21.DecodeRow | OpticalBro/app/src/main/java/edu/mit/web/opticalbro/MainActivity.java:372-394 | the inner loop writes, from `pix`, the width pixels of one row and touches nothing else |
| Nv21.DecodePixel | OpticalBro/app/src/main/java/edu/mit/web/opticalbro/MainActivity.java:374-393 | one iteration reads new chroma on even columns, reuses it on odd ones, and writes exactly one word |
| Neighbors.Neighbours | OpticalBro/app/src/main/java/edu/mit/web/opticalbro/MainActivity.java:440-455 | the positions the method visits, in its order left, up, right, down, each only when it lies inside the raster |
| Neighbors.NeighboursAreAdjacentCells | OpticalBro/app/src/main/java/edu/mit/web/opticalbro/MainActivity.java:440-455 | the neighbours visited are exactly the in-raster cells one step from (j, i) |
| Neighbors.NeighbourCount | OpticalBro/app/src/main/java/edu/mit/web/opticalbro/MainActivity.java:436-457 | in a raster of at least 2 × 2 the count is 2 at corners, 3 elsewhere on the border and 4 inside, so never 0 and the division at 456 is defined |
| Neighbors.NoNeighboursOnlyInSingleCell | OpticalBro/app/src/main/java/edu/mit/web/opticalbro/MainActivity.java:436-457 | the count is 0 exactly when the raster is 1 × 1, where line 456 divides 0 by 0 |
| Neighbors.SumAt | OpticalBro/app/src/main/java/edu/mit/web/opticalbro/MainActivity.java:442-454 | the exact sum of the values at a list of positions, the sum the averaging intends |
| Neighbors.SumAtAppend | OpticalBro/app/src/main/java/edu/mit/web/opticalbro/MainActivity.java:442-454 | the exact sum accumulates: summing over two position lists is the sum of the two sums |
| Neighbors.TruncToInt | OpticalBro/app/src/main/java/edu/mit/web/opticalbro/MainActivity.java:442 | the narrowing of `int += float`: rounds the float total toward zero, so it is within one of it and never farther from zero |
| Neighbors.TruncatedSumAt | OpticalBro/app/src/main/java/edu/mit/web/opticalbro/MainActivity.java:438-454 | the source's int counter: each value is added to it and the total narrowed back to an int |
| Neighbors.TruncatedSumAtAppend | OpticalBro/app/src/main/java/edu/mit/web/opticalbro/MainActivity.java:438-454 | accumulating over one list and then another is accumulating over their concatenation |
| Neighbors.Step | OpticalBro/app/src/main/java/edu/mit/web/opticalbro/MainActivity.java:440-443 | one guarded step: the counter takes in the value at a position only when the position is inside the raster |
| Neighbors.TruncatedIfInside | OpticalBro/app/src/main/java/edu/mit/web/opticalbro/MainActivity.java:440-443 | accumulating over the guarded one-element list is that step |
| Neighbors.TruncatedNeighbours | OpticalBro/app/src/main/java/edu/mit/web/opticalbro/MainActivity.java:440-455 | the four guarded steps in the source's order accumulate over exactly the visited neighbours |
| Neighbors.SumIfInside | OpticalBro/app/src/main/java/edu/mit/web/opticalbro/MainActivity.java:440-443 | one guarded exact step adds the zero-padded value of that neighbour |
| Neighbors.SumIsZeroPadded | OpticalBro/app/src/main/java/edu/mit/web/opticalbro/MainActivity.java:440-455 | the exact neighbour sum is the plain four-neighbour sum of the raster padded with zeros |
| Neighbors.UniformSum | OpticalBro/app/src/main/java/edu/mit/web/opticalbro/MainActivity.java:438-456 | over a raster holding c everywhere the exact sum is c times the count, so the average is c |
| Neighbors.SumWithinRange | OpticalBro/app/src/main/java/edu/mit/web/opticalbro/MainActivity.java:438-456 | with every value in [lo, hi] the exact sum lies between lo and hi times the count, so the average lies within the neighbours' range |
| Neighbors.IntegralValuesSumExactly | OpticalBro/app/src/main/java/edu/mit/web/opticalbro/MainActivity.java:438-454 | on integer-valued cells the source's int counter is the exact sum |
| Neighbors.SubUnitValuesSumToZero | OpticalBro/app/src/main/java/edu/mit/web/opticalbro/MainActivity.java:438-454 | when every neighbour's value has magnitude below 1 the source's sum is 0, whatever the values |
| Neighbors.TruncationLeavesNeighbourRange | OpticalBro/app/src/main/java/edu/mit/web/opticalbro/MainActivity.java:438-456 | in the 1 × 2 raster [0.0, 0.5], cell (0, 0) has the one neighbour 0.5, but the source's sum is 0 while the exact sum is 0.5 |
| Neighbors.NeighborSumAndCount | OpticalBro/app/src/main/java/edu/mit/web/opticalbro/MainActivity.java:436-455 | as written: the count is the number of neighbours of (j, i) inside the raster, every read is in bounds, and the sum is the int counter of the four guarded truncating steps |
| Neighbors.NeighborSumAndCountExact | OpticalBro/app/src/main/java/edu/mit/web/opticalbro/MainActivity.java:436-455 | corrected: the same count, and the sum is the exact sum of the neighbours' values |
| Reshape.ReshapeTo2D | OpticalBro/app/src/main/java/edu/mit/web/opticalbro/MainActivity.java:411-417 | cell (j, i) of the width × height window receives word j·width + i; other cells are unchanged |
| Reshape.ReshapeRow | OpticalBro/app/src/main/java/edu/mit/web/opticalbro/MainActivity.java:413-415 | the inner loop copies width consecutive words into row j and nothing else |
| Reshape.SpreadIsRowMajor | OpticalBro/app/src/main/java/edu/mit/web/opticalbro/MainActivity.java:411-417 | a raster filled row by row from the running pointer holds word j·width + i at (j, i) |
| Reshape.MarkColours | OpticalBro/app/src/main/java/edu/mit/web/opticalbro/MainActivity.java:424-427 | 0xffff0000 is opaque pure red and 0xff00ff00 opaque pure green |
| Reshape.Thresholded | OpticalBro/app/src/main/java/edu/mit/web/opticalbro/MainActivity.java:423-428 | a slot is either left as it was or overwritten with one of the two marks, and only for a value beyond ±20 |
| Reshape.ThresholdColours | OpticalBro/app/src/main/java/edu/mit/web/opticalbro/MainActivity.java:423-428 | values below -20 paint the slot opaque red, above 20 opaque green, and values in [-20, 20] leave it untouched |
| Reshape.ReshapeTo1DAndThreshold | OpticalBro/app/src/main/java/edu/mit/web/opticalbro/MainActivity.java:420-432 | slot j·width + i becomes the thresholded cell (j, i) over the slot's old word; slots from width·height on are untouched |
| Reshape.ThresholdSpreadIsRowMajor | OpticalBro/app/src/main/java/edu/mit/web/opticalbro/MainActivity.java:420-432 | the row-by-row threshold output, restated at row-major offsets |
| Reshape.ThresholdRow | OpticalBro/app/src/main/java/edu/mit/web/opticalbro/MainActivity.java:422-430 | one pass of the inner loop thresholds width consecutive slots and leaves the rest |
| Frame.DownscalingFactor | OpticalBro/app/src/main/java/edu/mit/web/opticalbro/MainActivity.java:47 | the downscaling factor is 4, so each dimension of the preview is divided by four before processing |
| Frame.DrawOnTop.constructor | OpticalBro/app/src/main/java/edu/mit/web/opticalbro/MainActivity.java:212-229 | a new view is not yet set up, and its placeholder arrays are fresh, so `OnDraw` can be called on it and changes nothing |
| Frame.DrawOnTop.SetupArrays | OpticalBro/app/src/main/java/edu/mit/web/opticalbro/MainActivity.java:636-653 | the raster size is the preview size divided by the downscaling factor, the five rasters are fresh, distinct, of the right shapes and zero in every cell, and the frame buffer has the frame's length |
| Frame.DrawOnTop.NewRasters | OpticalBro/app/src/main/java/edu/mit/web/opticalbro/MainActivity.java:647-651 | two zero H × W rasters and three distinct zero (H-1) × (W-1) rasters, as `new int[][]` fills them |
| Frame.DrawOnTop.CopyToPrevious | OpticalBro/app/src/main/java/edu/mit/web/opticalbro/MainActivity.java:329-331 | afterwards mPrevGrayscaleData equals mGrayscaleData cell for cell, and mGrayscaleData is unchanged |
| Frame.DrawOnTop.CopyRow | OpticalBro/app/src/main/java/edu/mit/web/opticalbro/MainActivity.java:330 | the arraycopy of row j overwrites exactly that row |
| Frame.DrawOnTop.OnDraw | OpticalBro/app/src/main/java/edu/mit/web/opticalbro/MainActivity.java:244-331 | before set-up nothing changes; afterwards, for any frame buffer that holds the last byte the decoder reads, the raster holds the decoded luma, E_x, E_y and E_t are the gradients between the old previous raster and the new one and lie in [-255, 255], so the `int` arithmetic never wraps, and the new raster becomes the previous one. Both grayscale rasters keep holding values in [0, 255] |
| PreviewSize.Distance | OpticalBro/app/src/main/java/edu/mit/web/opticalbro/MainActivity.java:167 | the distance is 0 exactly when height·width is the requested pixel count |
| PreviewSize.NearestFit | OpticalBro/app/src/main/java/edu/mit/web/opticalbro/MainActivity.java:164-173 | the scan with strict `<` ends on a first minimum: no entry is nearer, and every earlier entry is strictly farther |
| PreviewSize.FirstNearestIsUnique | OpticalBro/app/src/main/java/edu/mit/web/opticalbro/MainActivity.java:164-173 | there is only one first minimum, so the choice is determined by the list |
| PreviewSize.ExactFitWins | OpticalBro/app/src/main/java/edu/mit/web/opticalbro/MainActivity.java:164-173 | the first size whose pixel count equals the request is the one chosen |
| PreviewSize.NearestFitStep | OpticalBro/app/src/main/java/edu/mit/web/opticalbro/MainActivity.java:168-172 | one more entry replaces the choice only when it is strictly nearer |
| PreviewSize.MainActivity.GetPreviewSize | OpticalBro/app/src/main/java/edu/mit/web/opticalbro/MainActivity.java:157-175 | an empty list leaves mCameraHeight and mCameraWidth unchanged; otherwise they are the earliest size nearest to nPixels |

## Left out

- Camera, Android lifecycle and UI:
  - opening and releasing the camera, `Preview` and the surface callbacks;
  - `getSupportedPictureSizes`, which `PreviewSize.MainActivity.GetPreviewSize` receives as a parameter;
  - the logging, the bitmap and `mRGBData` allocation, and every canvas call, text and paint in `onDraw`.
- The preview callback that copies each frame into `mYUVData` and calls `invalidate()`. `Frame.DrawOnTop.OnDraw` holds for any content of the buffer.
- Floating point, in four places:
  - the frame-rate measurement and the `fps *` scaling and `(int)` cast of `E_t`. The model stores the unscaled temporal term;
  - the Horn–Schunck relaxation loop;
  - the arrow drawing and its grid loops;
  - the final float division of `getNeighborAverage`, which yields NaN for a 1 × 1 raster.
- Neighbors.NeighborSumAndCount: the `float` values are exact reals. The model does not capture float rounding, NaN, or the saturation of the narrowing at the `int` range.
- Neighbors.NeighborSumAndCountExact: the float sum it stands for would round at each addition, and the model's exact real sum does not.
- Frame.DrawOnTop.OnDraw: requires `Luma.GrayFits`, that the buffer holds the last byte the decoder reads. That is exactly the case in which the Java decoder stays inside its array. A shorter buffer throws `ArrayIndexOutOfBoundsException`, and that path is not modelled. The set-up only logs a length mismatch (MainActivity.java:654-656). `Luma.ExpectedLengthHoldsLumaPlane` and `Luma.LumaPlaneMeetsGrayFits` show that the expected length suffices. `Luma.SweepMeetsGrayFits` shows that a buffer shorter than the luma plane can also suffice.
- Frame.DrawOnTop.SetupArrays: requires preview dimensions of at least the downscaling factor. For smaller sizes `mImageHeight` or `mImageWidth` is 0 and the Java set-up throws: `Bitmap.createBitmap` at 644 rejects a zero dimension before the `E_x` allocation at 649 is reached.
- Frame.DrawOnTop.OnDraw keeps the decoder as written (`Luma.DecodeGrayscale`), since that is what the app runs. The corrected `Luma.DecodeGrayscaleDecimated` stands beside it (see Findings).
- Nv21.DecodeYuv420sp, Reshape.ReshapeTo2D and Reshape.ReshapeTo1DAndThreshold: each requires the source's in-bounds condition on its arrays. The two reshapes demand a raster shape only for a non-empty window, since Java indexes no row when the width or height is 0. The `ArrayIndexOutOfBoundsException` that Java throws otherwise is not modelled.
- Nv21.DecodeYuv420sp, Reshape.ReshapeTo2D and Reshape.ReshapeTo1DAndThreshold: the width and height are `nat`. A negative Java `int` size makes the loops run zero times, and that case is not modelled.
- Nv21.DecodeYuv420sp: the packing is computed on integers (`Nv21.Pack`). The source's bitwise OR of masked shifts is related to that sum only once, on 32-bit words, by `Nv21.JavaPackIsFieldSum`.
- PreviewSize.MainActivity.GetPreviewSize: does not model 32-bit wrap-around of `height * width - nPixels` or `Math.abs(Integer.MIN_VALUE)`. Unbounded integers are used, which agrees with Java for realistic camera sizes.
- `OpticalFlow.java` and `foo.rs` are not part of this model. The first is the RenderScript wrapper; the second holds the float GPU kernels of the Horn–Schunck step.

## Findings

| source | as written | input that shows it | evidently intended | confidence | as-written member | corrected member |
|---|---|---|---|---|---|---|
| OpticalBro/app/src/main/java/edu/mit/web/opticalbro/MainActivity.java:407 | after each row of `width` cells the pointer advances by a further `(downscalingFactor - 1) * width`, so raster row j starts at byte j·(2d-1)·width | d = 2, width = 1: cell (1, 0) reads byte 3, but full-resolution row 2 starts at byte 4. With the app's d = 4, raster rows advance 7·width bytes instead of 16·width. The image then samples only the top 7/16 of the frame, and its rows also wrap. Raster row j starts at full-resolution row ⌊7j/4⌋, column (7j mod 4)·width. For width = 4, cell (1, 0) reads full-resolution pixel (1, 12) and cell (1, 1) reads (2, 0) | skip d - 1 full-resolution rows of d·width bytes, i.e. advance `(downscalingFactor - 1) * downscalingFactor * width`, sampling pixel (j·d, i·d) | not executed | Luma.StrideMissesDecimation, Luma.StrideRowStart, Luma.DecodeGrayscale | Luma.DecodeGrayscaleDecimated |
| OpticalBro/app/src/main/java/edu/mit/web/opticalbro/MainActivity.java:438-454 | `neighborSum` is an `int`, so each `neighborSum += array[..][..]` narrows the float total toward zero and drops its fraction | the 1 × 2 raster [0.0, 0.5] at cell (0, 0): the one neighbour is 0.5, the sum is 0. More generally, the sum is 0 whenever every neighbour's value has magnitude below 1. The relaxation at 321-323 makes u and v fractional, and their averages at 313-314 then lose the fraction | accumulate in a `float`, so that the average lies within the neighbours' range. The RenderScript copy of the same rule in `OpticalBro/app/src/main/rs/foo.rs:19` declares `float neighborSum = 0;` | not executed | Neighbors.TruncationLeavesNeighbourRange, Neighbors.SubUnitValuesSumToZero, Neighbors.NeighborSumAndCount | Neighbors.NeighborSumAndCountExact, Neighbors.SumWithinRange |
