# Image-processing exercises, modelled in Dafny

The repository is five standalone C++ programs, each an image-processing
exercise on 8-bit images:

1. `1/1.cpp` reads a 24-bit BMP file. It converts the image to an 8-bit
   grayscale BMP with a 256-entry gray palette, transposes it in place
   (which only works for a square image), and writes the result back out.
2. `2/2.cpp` equalises or matches histograms. It counts a 256-bin
   histogram, turns it in place into a cumulative table normalised to
   0..255, and maps every pixel through an `upper_bound` lookup in a
   reference table. For equalisation that table is the identity.
3. `3/3.cpp` applies neighbourhood mean and median filters. The window is
   clipped at the image border and the kernel size is chosen by a
   trackbar.
4. `4/4.cpp` filters in the frequency domain on a 512 x 512 spectrum. Its
   parts are an in-place transpose, the centring shift, ideal, Gaussian
   and Butterworth low- and high-pass filters, the trackbar dispatch, and
   a recursive radix-2 transform.
5. `5/5.cpp` does binary morphology. It thresholds at 135, then erodes,
   dilates, opens or closes with one of five 0/1 structuring elements.

The Dafny project follows that layout:

| file | module | models |
|---|---|---|
| `grids.dfy` | `Grids` | bytes, grids `g[row][col]`, the contents `Cells` of an `array2`, the transpose and an in-place square transpose |
| `arith.dfy` | `Arithmetic` | small facts about integer division used by the proofs |
| `complex.dfy` | `ComplexNumbers` | complex numbers over exact reals, `1i*conj(z)` |
| `bmp.dfy` | `Bmp` | `1/1.cpp`: header codec, colour and gray decode, gray conversion, `transpose`, `save` |
| `histogram.dfy` | `Histogram` | `2/2.cpp`: histogram, prefix sum, normalisation, matching |
| `spatial.dfy` | `Spatial` | `3/3.cpp`: windows, mean, median, the trackbar callback |
| `frequency.dfy` | `Frequency` | `4/4.cpp`: transpose, shift, filters, dispatch, transform shape |
| `morphology.dfy` | `Morphology` | `5/5.cpp`: threshold, kernels, erode, dilate, open, close |

Two kinds of code are modelled in two ways. Code that changes state in
loops becomes methods over `array2` with loop invariants. That covers
filling a bitmap, counting a histogram, the in-place prefix sum, rewriting
pixels, the clone-then-overwrite of erosion, and the in-place transpose.
Each such method is proved against a specification function on values,
and the properties the programs promise are lemmas about those functions.
The filters that build a fresh spectrum cell by cell are the loop method
`Frequency.Fill`, and the recursive transform is the method
`Frequency.Transform`. Each is proved equal to a function on values
(`Frequency.Pointwise` and `Frequency.Fft`).

Floating-point arithmetic in `4/4.cpp` is idealised. The Butterworth and
Gaussian filters are computed over Dafny's exact `real`, so the model
states what the formulas mean, not how doubles round them.

## Model

| member | source | states |
|---|---|---|
| Bmp.Bytes16 | 1/1.cpp:192-195 | a 16-bit field is written as 2 bytes that read back little-endian as the same value |
| Bmp.Bytes32 | 1/1.cpp:192-195 | a 32-bit field is written as 4 bytes that read back little-endian as the same value |
| Bmp.EncodeHeader | 1/1.cpp:190-195 | the header `save` writes is 0x36 bytes long |
| Bmp.HeaderRoundTrip | 1/1.cpp:76-90 | decoding the header `save` writes, whatever follows it, gives back every field (file size at 0x02, offset at 0x0a, the eleven info fields from 0x0e) |
| Bmp.HeaderBytesRoundTrip | 1/1.cpp:76-90 | for a file starting "BM" with zero reserved bytes, re-encoding the decoded header reproduces its first 0x36 bytes |
| Bmp.DecodeColour | 1/1.cpp:127-138 | fails exactly when the depth is not 24; otherwise the header is the decoded one and bitmap row `height-1-i` holds file row i, each pixel read B,G,R and stored as (R,G,B) |
| Bmp.ReadPixel | 1/1.cpp:131-135 | pixel (i,j) of the colour bitmap is read from the three bytes at 0x36 + 3(i*width + j), blue first, all inside the file |
| Bmp.BottomUpLength | 1/1.cpp:199-201 | the pixel bytes `save` writes number height*width |
| Bmp.BottomUpAt | 1/1.cpp:199-201 | byte i*width+j of the written pixels is `bitmap[height-1-i][j]` |
| Bmp.GrayRow | 1/1.cpp:150-152 | a bitmap row is `width` samples taken from file row `height-1-r` |
| Bmp.GrayPixels | 1/1.cpp:150-152 | the bitmap read from a file is height x width, with bitmap row r holding file row `height-1-r` |
| Bmp.ReadGray | 1/1.cpp:148-153 | the nested read loop fills a fresh zeroed array with exactly those grid contents, a read past the end of the file storing nothing, so the missing samples stay 0 |
| Bmp.GrayPixelsOfShortFile | 1/1.cpp:149-152 | a sample inside the file is read from its row-major position, and one past the end of the file is 0 |
| Bmp.GrayPixelsOfBottomUp | 1/1.cpp:150-152 | reading bottom-up what was written bottom-up gives back the bitmap, whatever precedes and follows it |
| Bmp.GrayHeaderConsistent | 1/1.cpp:157-171 | after conversion the file size is still offset plus image size, the depth of a 24-bit image becomes 8, and the offset grows by the 1024-byte palette |
| Bmp.Palette | 1/1.cpp:196-198 | the palette is 1024 bytes, entry k being (k,k,k,0) for all 256 k, the `uint8_t` loop ending when its counter wraps to 0 |
| Bmp.GrayScaleBitmap.FromFile | 1/1.cpp:148-153 | the object holds the decoded header and the bitmap read from offset 0x36, for a file of any length that holds the header; samples past the end of the file are 0 |
| Bmp.GrayScaleBitmap.FromColour | 1/1.cpp:155-180 | the header is the converted one and each pixel is the luma of the colour pixel at the same place |
| Bmp.GrayScaleBitmap.Transpose | 1/1.cpp:182-188 | for a square image, the bitmap becomes its transpose in place, and width/height and the two resolutions are swapped |
| Bmp.GrayScaleBitmap.Save | 1/1.cpp:190-203 | the bytes written are the header, the palette, then the pixels bottom-up |
| Bmp.TransposeTwice | 1/1.cpp:182-188 | transposing twice restores the header and the bitmap |
| Bmp.SavedSizeMatchesHeader | 1/1.cpp:155-201 | for a converted 24-bit file without padding, the number of bytes `save` writes equals the converted header's file size |
| Bmp.SavedHeaderReadBack | 1/1.cpp:190-195 | a saved file decodes to the header it was saved with |
| Bmp.SavedPixelsReadBack | 1/1.cpp:196-201 | reading bottom-up after the palette gives back the saved bitmap |
| Bmp.GrayRoundTrip | 1/1.cpp:148-203 | reading a saved grayscale file from its pixel-array offset reproduces the header and the bitmap |
| Bmp.DecodeGrayOf | 1/1.cpp:148-153 | a file whose header and pixels are given decodes to exactly them |
| Bmp.GrayReadAsWrittenHitsPalette | 1/1.cpp:148-153 | reading pixels from 0x36 as the program does returns palette bytes: the bottom-left pixel of a saved image is always 0 |
| Bmp.GrayReadAsWrittenExample | 1/1.cpp:148-153 | a saved 1x1 image with pixel 7 reads back from 0x36 as 0, and from its offset as 7 |
| Histogram.FlattenLength | 2/2.cpp:15 | the pixel iterator visits rows*cols pixels |
| Histogram.HistogramOf | 2/2.cpp:12-18 | 256 bins, bin v counting the pixels equal to v |
| Histogram.HistogramAppend | 2/2.cpp:16 | one more pixel of value x increments bin x only |
| Histogram.GetHistogram | 2/2.cpp:12-18 | the counting loop returns a fresh 256-bin array equal to the histogram of the image |
| Histogram.CountBelowStep | 2/2.cpp:31 | the pixels below n+1 are those below n plus those equal to n |
| Histogram.CountBelowAll | 2/2.cpp:31 | when every pixel is below n, all of them are counted |
| Histogram.BinsBelow | 2/2.cpp:12-31 | the first n bins add up to the number of pixels below n |
| Histogram.BinsSumToPixelCount | 2/2.cpp:12-18 | the bins add up to the pixel count |
| Histogram.PartialSums | 2/2.cpp:31 | the cumulative table has one entry per bin |
| Histogram.PartialSum | 2/2.cpp:31 | the prefix sum overwrites the array in place with its running sums |
| Histogram.CumulativeCounts | 2/2.cpp:31 | cumulative entry k counts the pixels at most k; the table is nondecreasing, within [0, pixels], and ends at the pixel count |
| Histogram.CountBelowMonotone | 2/2.cpp:31 | counts below a level grow with the level |
| Histogram.MaxOf | 2/2.cpp:32 | `max()` is an upper bound of the table that the table attains |
| Histogram.MaxOfSorted | 2/2.cpp:32 | of a nondecreasing table the maximum is the last entry |
| Histogram.Quot | 2/2.cpp:32 | C++ division truncating toward zero agrees with Dafny's on nonnegative operands |
| Histogram.QuotMonotone | 2/2.cpp:32 | integer division by a positive maximum keeps order |
| Histogram.QuotLevel | 2/2.cpp:32 | `255*x/max` lies in [0,255] for 0 <= x <= max, and is 255 at x == max |
| Histogram.NormalizedLevels | 2/2.cpp:32 | normalising a nondecreasing, nonnegative table keeps it nondecreasing, within [0,255], ending at 255 |
| Histogram.CumulativeNormalizedLevels | 2/2.cpp:20-34 | for a nonempty image the normalised cumulative histogram is nondecreasing, within [0,255], and ends at 255 |
| Histogram.CumulativeHistogramNormalized | 2/2.cpp:20-34 | the single-channel path computes the normalised cumulative histogram, nondecreasing, within [0,255], last entry 255 |
| Histogram.UpperBound | 2/2.cpp:42 | every entry before the result is at most v, and the entry at it (if any) exceeds v |
| Histogram.UpperBoundSplits | 2/2.cpp:42 | on a sorted table every entry from the upper bound on exceeds v |
| Histogram.Identity | 2/2.cpp:64-67 | the equalisation reference has 256 entries and is sorted |
| Histogram.ByteOf | 2/2.cpp:42 | storing an `int` in a `uint8_t` pixel keeps every value in 0..255 |
| Histogram.MatchHistogram | 2/2.cpp:36-44 | each output pixel is the first reference entry greater than the normalised cumulative value of the source pixel, the table computed before any write, so calling it with `src` and `dest` the same image gives the out-of-place result |
| Histogram.WriteMatched | 2/2.cpp:40-43 | the write loop sets each destination pixel from the source pixel it had before the loop, through the cumulative table and the upper bound in the reference |
| Histogram.UpperBoundOfIdentity | 2/2.cpp:42 | on the identity table the upper bound of level v is v+1 |
| Histogram.BrightestNormalized | 2/2.cpp:20-34 | a level no pixel exceeds has normalised cumulative value 255 |
| Histogram.IdentityReferenceHitsEnd | 2/2.cpp:42 | every nonempty image has a pixel whose normalised cumulative value is 255, whose upper bound in the identity table is the end |
| Histogram.FlattenIndex | 2/2.cpp:15 | the k-th pixel the iterator visits is pixel (k/cols, k%cols) |
| Histogram.LowerBound | 2/2.cpp:42 | every entry before the result is below v, and the entry at it (if any) is at least v |
| Histogram.MatchedLevel | 2/2.cpp:42 | the matched level is an index of the table whose entry reaches the source's cumulative value |
| Histogram.LowerBoundExists | 2/2.cpp:42 | a table ending at 255 always has a lower bound for levels up to 255 |
| Histogram.EqualizedIsCumulative | 2/2.cpp:42 | with the lower bound, equalisation maps level v to its normalised cumulative value, with no level off the end |
| Spatial.GatherWindow | 3/3.cpp:36-43 | the nested loops push exactly the in-bounds neighbours, row by row |
| Spatial.Overlap | 3/3.cpp:39 | the in-bounds part of a window side is at most the side's length and at most the image side |
| Spatial.OverlapStep | 3/3.cpp:37-39 | widening a window side by one position adds one in-bounds position exactly when that position is inside the image |
| Spatial.WindowLength | 3/3.cpp:37-43 | the window has as many samples as its in-bounds rows times its in-bounds columns |
| Spatial.InteriorWindowLength | 3/3.cpp:37-39 | a pixel at least kernel/2 from every edge has kernel*kernel neighbours |
| Spatial.WindowHasCentre | 3/3.cpp:36-43 | the window holds the pixel itself, so it is never empty |
| Spatial.SumBounds | 3/3.cpp:44 | the sum of samples between lo and hi lies between lo*count and hi*count |
| Spatial.MeanWithin | 3/3.cpp:44 | the integer mean lies between any lower and upper bound of the samples |
| Spatial.Mean | 3/3.cpp:30-49 | every output pixel is the integer mean of its non-empty window; the output has the input's size |
| Spatial.InsertSorted | 3/3.cpp:66 | inserting into a sorted sequence keeps it sorted, its head being the new sample or the old head |
| Spatial.InsertPermutes | 3/3.cpp:66 | inserting adds exactly the one sample to the multiset of samples |
| Spatial.SortSorted | 3/3.cpp:66 | sorting gives a sorted permutation of the neighbourhood |
| Spatial.WrittenMedian | 3/3.cpp:65-72 | no value exactly when there are 0 or 2 samples, the even case reading one past the middle |
| Spatial.WrittenMedianWithin | 3/3.cpp:65-72 | whenever the program writes a median, it lies between the smallest and the largest sample of the window, both samples of it, and is never below the lower middle sample |
| Spatial.MedianOf | 3/3.cpp:67-71 | the median lies between the two middle samples of the sorted neighbourhood |
| Spatial.SortCounts | 3/3.cpp:66 | sorting keeps how many samples are below and above any level |
| Spatial.MedianSplits | 3/3.cpp:67-71 | at most half of the samples are below the median and at most half above |
| Spatial.WrittenMedianExample | 3/3.cpp:68 | on samples 0,0,0,20 the program gives 10, which three of four samples are below, while the median is 0 |
| Spatial.WindowMedian | 3/3.cpp:65-72 | the sort-and-index step computes the program's median of the window |
| Spatial.MedianRow | 3/3.cpp:56-73 | every pixel of one output row gets the program's median of its window, or the row stops at a window of two samples; other rows are untouched |
| Spatial.Median | 3/3.cpp:51-77 | throws exactly when some window has two samples; otherwise each output pixel is the program's median of its window, with the input's size |
| Spatial.KernelSize | 3/3.cpp:83-87 | positions 0/1/2 give odd kernels whose half-width is 1/2/3, i.e. sizes 3/5/7 |
| Spatial.CallBack | 3/3.cpp:79-96 | only filter positions 0 and 1 produce output; 0 gives the mean and 1 the median of each window, a throw only from the median |
| Grids.TransposeSquare | 4/4.cpp:44-52 | swapping (i,j) with (j,i) for j < i transposes a square array in place |
| Frequency.Transpose | 4/4.cpp:44-52 | the N x N spectrum becomes its transpose and the diagonal is unchanged |
| Frequency.TransposeInvolution | 4/4.cpp:63-67 | transposing twice restores the spectrum |
| Frequency.ShiftOf | 4/4.cpp:75 | `(N/2+i)%N` adds N/2 in the first half and subtracts it in the second |
| Frequency.ShiftInvolution | 4/4.cpp:75 | the shift stays in [0,N) and is its own inverse, hence a bijection |
| Frequency.Centred | 4/4.cpp:128 | the centred coordinate is i below N/2 and i-N above, and lies in [-N/2, N/2) |
| Frequency.DistZero | 4/4.cpp:128 | the squared centred distance is 0 exactly at cell (0,0) |
| Frequency.Shift2d | 4/4.cpp:70-79 | output cell (shift i, shift j) holds the magnitude of input (i,j), so every output cell is written once, from input (shift i, shift j) |
| Frequency.Ratio | 4/4.cpp:157 | `(d/c)^4` is nonnegative and 0 at distance 0 |
| Frequency.ButterworthFactors | 4/4.cpp:151-208 | the low- and high-pass factors sum to 1, lie in (0,1] and [0,1), and are 1 and 0 at the centre |
| Frequency.LowFactorDecreasing | 4/4.cpp:156-157 | the low-pass factor does not grow with distance |
| Frequency.ButterworthScales | 4/4.cpp:151-208 | the filtered value is the input scaled by the low- or high-pass factor |
| Frequency.Pointwise | 4/4.cpp:123-208 | each output cell is a function of its input cell and its squared distance |
| Frequency.IdealLow | 4/4.cpp:123-137 | each cell is the ideal low-pass of its input cell |
| Frequency.IdealHigh | 4/4.cpp:170-184 | each cell is the ideal high-pass of its input cell |
| Frequency.GaussianLow | 4/4.cpp:139-149 | each cell is the input scaled by the Gaussian factor |
| Frequency.GaussianHigh | 4/4.cpp:186-196 | each cell is the input scaled by one minus the Gaussian factor |
| Frequency.ButterworthLow | 4/4.cpp:151-161 | each cell is the input divided by `1+(d/c)^4` |
| Frequency.ButterworthHigh | 4/4.cpp:198-208 | each cell is the input times `(d/c)^4` divided by `1+(d/c)^4` |
| Frequency.Fill | 4/4.cpp:125-135 | the nested loops fill a fresh N x N spectrum cell by cell |
| Frequency.LowPassIdeal | 4/4.cpp:123-137 | returns the ideal low-pass spectrum |
| Frequency.HighPassIdeal | 4/4.cpp:170-184 | returns the ideal high-pass spectrum |
| Frequency.LowPassGaussian | 4/4.cpp:139-149 | returns the Gaussian low-pass spectrum |
| Frequency.HighPassGaussian | 4/4.cpp:186-196 | returns the Gaussian high-pass spectrum |
| Frequency.LowPassButterworth | 4/4.cpp:151-161 | returns the Butterworth low-pass spectrum |
| Frequency.HighPassButterworth | 4/4.cpp:198-208 | returns the Butterworth high-pass spectrum |
| Frequency.IdealComplement | 4/4.cpp:123-184 | low-pass plus high-pass is the input; beyond the cutoff low-pass is 0 and high-pass the input, within it the reverse |
| Frequency.IdealIdempotent | 4/4.cpp:123-184 | applying either ideal filter twice equals applying it once, and low-pass after high-pass is all zero |
| Frequency.GaussFactorAtCentre | 4/4.cpp:145 | the Gaussian factor at distance 0 is `exp(0)` |
| Frequency.GaussianComplement | 4/4.cpp:139-196 | Gaussian low-pass plus high-pass is the input |
| Frequency.GaussianCentre | 4/4.cpp:139-196 | at the centre the filters scale by `exp(0)` and `1-exp(0)` |
| Frequency.GaussianAtCentre | 4/4.cpp:139-196 | at distance 0 a cell is scaled by `exp(0)` and `1-exp(0)` |
| Frequency.ButterworthComplement | 4/4.cpp:151-208 | Butterworth low-pass plus high-pass is the input, each the input scaled by its factor |
| Frequency.ButterworthCentre | 4/4.cpp:151-208 | at the centre low-pass keeps the input and high-pass gives 0 |
| Frequency.ButterworthAtCentre | 4/4.cpp:151-208 | at distance 0 a cell passes low-pass unchanged and high-pass as 0 |
| Frequency.Selected | 4/4.cpp:221-242 | the dispatched spectrum has the input's N x N shape |
| Frequency.FilterSpectrum | 4/4.cpp:221-242 | the switch returns the selected filter at cutoff 20(f+1) (ideal, Gaussian) or 10(f+1) (Butterworth), and the input for other positions |
| Frequency.SelectedPairs | 4/4.cpp:221-242 | positions p and p+3 are complementary filters adding up to the input; positions outside 0..5 pass the spectrum through |
| Frequency.Evens | 4/4.cpp:26 | the even slice has n/2 elements |
| Frequency.Odds | 4/4.cpp:27 | the odd slice has n/2 elements |
| Frequency.Fft | 4/4.cpp:21-34 | the output is as long as the input, and a single sample is returned unchanged |
| Frequency.Transform | 4/4.cpp:21-34 | the recursive transform with its butterfly loop computes the specified shape |
| Frequency.SumAppend | 4/4.cpp:28-32 | summing one more value adds it |
| Frequency.SumOfHalves | 4/4.cpp:26-27 | an even-length sequence sums to the sum of its even and odd halves |
| Frequency.DcIsSum | 4/4.cpp:21-34 | for a power-of-two length and a twiddle of 1 at k = 0, output 0 is the sum of the inputs |
| ComplexNumbers.SwapParts | 4/4.cpp:38-40 | `1i*conj(z)` exchanges the real and the imaginary parts |
| Frequency.SwapPartsInvolution | 4/4.cpp:38-40 | applying the swap twice gives the value back |
| Morphology.Thresholded | 5/5.cpp:10-29 | the output is a binary image of the same size, 255 exactly where the input is at least 135 |
| Morphology.ImcvtBinary | 5/5.cpp:15-29 | the loops fill a fresh array of the input's size with the thresholded image |
| Morphology.Square | 5/5.cpp:49-81 | an n x n kernel |
| Morphology.Kernels | 5/5.cpp:40-82 | each of the five structuring elements is a non-empty rectangular kernel |
| Morphology.Rect1x2Offsets | 5/5.cpp:41-43 | `RECT_1x2` covers exactly the offsets (0,0) and (0,+1) |
| Morphology.Eroded | 5/5.cpp:92-110 | each output cell is the eroded value of that cell |
| Morphology.ErodePixel | 5/5.cpp:97-106 | the kernel loops for one pixel leave it at its eroded value and change no other pixel |
| Morphology.Dilated | 5/5.cpp:112-130 | each output cell is the dilated value of that cell |
| Morphology.DilatePixel | 5/5.cpp:117-126 | the kernel loops for one pixel leave it at its dilated value and change no other pixel |
| Morphology.ZeroRowDone | 5/5.cpp:97-98 | ending a kernel row and starting the next cover the same kernel cells |
| Morphology.ZeroStep | 5/5.cpp:98-103 | one inner step adds one kernel cell to those seen for a black neighbour |
| Morphology.NonzeroStep | 5/5.cpp:118-123 | one inner step adds one kernel cell to those seen for a non-black neighbour |
| Morphology.Clone | 5/5.cpp:94 | a fresh copy of the input |
| Morphology.Erode | 5/5.cpp:92-110 | the result is the erosion of the input, reading only the input so the scan order does not matter |
| Morphology.Dilate | 5/5.cpp:112-130 | the result is the dilation of the input, reading only the input |
| Morphology.Open | 5/5.cpp:132-136 | the result is the dilation of the erosion |
| Morphology.Close | 5/5.cpp:138-142 | the result is the erosion of the dilation |
| Morphology.Opened | 5/5.cpp:132-136 | opening keeps the image's size |
| Morphology.Closed | 5/5.cpp:138-142 | closing keeps the image's size |
| Morphology.Operated | 5/5.cpp:145-161 | every operation and kernel position gives an image of the input's size |
| Morphology.Operate | 5/5.cpp:145-161 | the switch applies erode, dilate, open or close with the chosen kernel |
| Morphology.ErodeShrinks | 5/5.cpp:94-103 | erosion never brightens; a pixel ends black exactly when it was black or a covered neighbour is black |
| Morphology.DilateGrows | 5/5.cpp:114-123 | dilation never darkens; a pixel ends white exactly when it was white or a covered neighbour is not black |
| Morphology.BinaryPreserved | 5/5.cpp:92-142 | on a {0,255} image erode, dilate, open and close give {0,255} images |
| Morphology.OperatedBinary | 5/5.cpp:145-173 | whatever the trackbars say, the shown result of the thresholded input is binary |
| Morphology.Monotone | 5/5.cpp:92-130 | erosion and dilation keep the pointwise order of images |
| Morphology.OpenCloseBetween | 5/5.cpp:132-142 | opening and closing both lie between the erosion and the dilation |
| Morphology.Inverted | 5/5.cpp:15-29 | the negative adds up with the image to 255 in every cell |
| Morphology.Duality | 5/5.cpp:92-130 | on a binary image, dilating the negative is the negative of the erosion |
| Morphology.WrittenCheckAdmitsOutside | 5/5.cpp:101 | with at least 2 rows and columns the chained check `0 <= row < rows` always passes, for instance for row -1 of the diamond at pixel (0,0), which lies outside the image |

## Left out

- File and stream I/O are not modelled. Files are byte sequences. `bstream`'s `seekg`/`seekp`, `read`/`write`, `readBMP`/`writeBMP` and `printHeader` are left out.
- Everything OpenCV does beyond single-channel pixel access is left out: `imread`, `imshow`, `imwrite`, `hconcat`/`vconcat`, `namedWindow`, trackbar creation, `waitKey`, and the directory walks and `std::cin` prompts in every `main`.
- The global trackbar variables become parameters of the callback models.
- Bmp.GrayScaleBitmap.FromColour takes the BT.709 weighting `0.2126 R + 0.7152 G + 0.0722 B` as a parameter, because it is floating-point arithmetic with truncation to `uint8_t`.
- Bmp.GrayScaleBitmap.FromFile requires the file to hold the whole 0x36-byte header. On a shorter file the program leaves the unread header fields uninitialised, so their values are undefined.
- Bmp.DecodeColour requires the file to hold every pixel. On a shorter file the program stores the uninitialised locals `blue`, `green` and `red` for the missing pixels, whose values are undefined.
- Bmp.GrayScaleBitmap.Transpose requires a square image. `convertFlipGrayScale` transposes every converted image. With more rows than columns the program indexes columns past the end of a row. With more columns than rows it transposes only the top square and swaps the dimensions, so `save` then reads rows that do not exist. Both are undefined behaviour.
- BMP rows are not padded to 4 bytes, as in the program; SavedSizeMatchesHeader assumes an image size without padding.
- The two reserved header fields at 0x06 are not kept, as in the program. A file with nonzero reserved bytes does not round-trip through `save`.
- The 3-channel HSV path of `getCumulativeHistogramNormalized` and its `main` (`cvtColor`, `split`, `merge`) is left out. Only the single-channel path is modelled.
- The reference image of histogram matching in `2/2.cpp` is taken as a given sorted table. `main`'s retry on a bad file name is left out.
- Histogram.MatchHistogram requires every looked-up level to have an upper bound in the table, because dereferencing `end()` is undefined behaviour. It also requires `255 * pixels` to fit in `int`, as the `int` valarray does.
- Spatial: the image is modelled as single-channel `uint8_t`, which is how `Mean` and `Median` read it.
- Spatial.CallBack requires `kernelPos` in 0..2, the trackbar's range. Outside it the program uses an uninitialised `kernel`.
- Frequency: `FFT::transform`'s twiddle `exp(-2 pi i k / n)` is a parameter, and so is `exp` for the Gaussian filters.
- Frequency: `inverseTransform`, `transform2d` and `inverseTransform2d` (with its cast to `uint8_t`) are left out. So are `toMat`'s scaling and cast. These are floating-point and transcendental numerics. Only the swap `1i*conj(z)` they use is modelled.
- Frequency.Shift2d takes the magnitude map `log(1 + abs(z))` as a parameter.
- Frequency: the ideal filters compare `dx*dx + dy*dy` with `cutoff*cutoff` in integers instead of `abs(...)` in doubles. This is the same comparison for the exact values.
- Frequency.ButterworthLow requires a nonzero cutoff, and so do ButterworthHigh and Ratio. The program divides by the cutoff in doubles, and the dispatch always passes a positive cutoff.
- Frequency.GaussianLow and Frequency.GaussianHigh require a nonzero standard deviation for the same reason.
- Frequency.Fft requires a nonempty input, because on an empty one the program recurses forever. For an odd length the last output entry is left at zero, as the program's loop never writes it.
- Frequency.Fft is not proved equal to the discrete Fourier transform. Its twiddles are abstract, so only the shape and the DC entry are stated.
- Morphology.Erode implements the evident bounds check `0 <= row && row < rows` (and the same for columns), not the chained comparison in the program. The same goes for Morphology.Dilate. With the chained comparison the program reads outside the image, which is undefined behaviour. See Findings.
- Morphology.Operate requires `operationPos` in 0..3 and `kernelPos` in 0..4, the trackbar ranges. Outside them the switch has no default and `kernels[kernelPos]` would be out of bounds.

## Findings

| source | as written | input that shows it | evidently intended | confidence | as-written member | corrected member |
|---|---|---|---|---|---|---|
| 1/1.cpp:148-153 | the grayscale reader reads pixels right after the 0x36-byte header, where `save` puts the palette | a saved 1x1 image with pixel 7 reads back as 0 | read from `pixelArrayOffset` | not executed | Bmp.GrayReadAsWrittenExample | Bmp.GrayRoundTrip |
| 2/2.cpp:42 | `upper_bound` in the identity table gives level H+1, and `end()` for H = 255, which every nonempty image has | any nonempty image: its brightest pixel has normalised cumulative value 255 | the first entry not below H (`lower_bound`), which maps H to H | not executed | Histogram.IdentityReferenceHitsEnd | Histogram.EqualizedIsCumulative |
| 3/3.cpp:68 | the even-count median averages `size/2 - 1` and `size/2 + 1`, and throws for 2 samples | samples 0,0,0,20 give 10, above three of four samples | average `size/2 - 1` and `size/2` | not executed | Spatial.WrittenMedianExample | Spatial.MedianSplits |
| 5/5.cpp:101 | `0 <= row < input.rows` (and the same on line 121) compares a bool with `rows`, so it holds for every row when there are at least 2 rows | diamond kernel at pixel (0,0): row -1 passes | `0 <= row && row < input.rows` | not executed | Morphology.WrittenCheckAdmitsOutside | Morphology.Erode |
