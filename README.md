# Fast Radial Symmetry Transform — verified model of frst.h

This project models the core of `frst2d`, the Fast Radial Symmetry Transform
of Loy and Zelinsky (ECCV 2002) as written in `frst.h`, and proves properties
of that model in Dafny. The model covers:

- **Central-difference gradients.** `grady` and `gradx` each fill a zeroed
  grid of the image's size. `grady` writes half the difference of the right
  and left neighbours into every inner column. `gradx` writes half the
  difference of the neighbours below and above into every inner row.
- **Mode decoding.** Mode 1, 2 or 3 selects bright votes, dark votes or both.
  Any other mode fails before a canvas is allocated.
- **Vote accumulation.** Every pixel with a non-zero gradient projects itself
  by the integer offset `gp` into two canvases padded by the radius `r`: the
  count canvas O_n and the magnitude canvas M_n. A bright vote adds +1 and
  +norm at the forward cell (i + gp0 + r, j + gp1 + r). A dark vote adds -1
  and -norm at the backward cell (i - gp0 + r, j - gp1 + r).
- **Kernel size and crop.** The Gaussian kernel size is r / 2, bumped to the
  next odd number when even. The crop takes the h x w window at (r, r) of the
  padded canvas.

The modules follow the structure of the program:

- `Gradient` holds `GradY`/`GradX`: methods over `array2`, proved against the
  cell functions `GradYAt`/`GradXAt`.
- `Votes` gives the specification of the accumulation. One `Vote` per pixel,
  taken in the row-major order of the double loop, is folded into each canvas
  cell (`CountAt`, `MagAt`). Lemmas about that fold state the padding
  invariant, the signs, the totals and the constant-image case.
- `Frst` holds the implementation. `Frst2d` decodes the mode and allocates the
  canvases. `CastVotes`, `CastRowVotes` and `AddVote` do the scatter-add in
  place on an `array2<int>` and an `array2<real>`. `Frst` also holds the
  kernel size and the crop, with `Pad` as the crop's partner.
- `Sums` holds a rectangle sum of an integer field. It is used for the
  count-canvas total.
- `Rounding` treats the offset `round(g / norm * r)` over exact reals. It
  shows that this offset satisfies the bound the accumulation relies on,
  for the norm std::sqrt computes, the non-negative n with n * n = gx * gx + gy * gy.

The square root and the rounded offset are floating-point work, so `Frst2d`
takes them as a parameter `p: Projection`. `p.Valid(r)` states what the
accumulation relies on:

- the norm is non-negative;
- the norm is positive exactly for a non-zero gradient;
- both offset components lie within [-r, r].

Axis convention: `cv::Point p(i, j)` and `at(x, y)` both index (row, column).
The first gradient component comes from `gradx`, which differences along a
column, so it is added to the row index, and the second to the column index.
The model keeps that pairing (`Offset.drow`, `Offset.dcol`).

As in the source, `Frst2d` computes both gradients before it checks the mode
(frst.h:62-64), so an invalid mode still builds the gradient grids but never a
canvas.

## Model

| member | source | states |
|---|---|---|
| Gradient.GradYAt | frst.h:15-25 | the grady value at (y, x): half the difference of the right and left neighbours on inner columns, 0 on the first and last column, always within [-127.5, 127.5] |
| Gradient.GradXAt | frst.h:33-43 | the gradx value at (y, x): half the difference of the lower and upper neighbours on inner rows, 0 on the first and last row, always within [-127.5, 127.5] |
| Gradient.GradY | frst.h:15-25 | grady returns a fresh grid of the input's size whose every cell is GradYAt |
| Gradient.GradX | frst.h:33-43 | gradx returns a fresh grid of the input's size whose every cell is GradXAt |
| Gradient.ConstantImageFlatGradient | frst.h:15-43 | a constant image has gradient 0 in both directions at every pixel |
| Votes.PixelVote | frst.h:93-111 | the per-pixel step: a vote exactly when the norm is positive, weighing the norm, with the forward and backward cells at +gp and -gp from the pixel's canvas cell (i + r, j + r) |
| Votes.PixelVoteCases | frst.h:93-101 | a pixel votes exactly when its gradient is non-zero; its vote then weighs the (positive) norm and targets the forward and backward projected cells |
| Votes.ProjectionInCanvas | frst.h:84-111 | with both offset components in [-r, r], the forward and backward cells of any pixel of an h x w image lie in the (h + 2r) x (w + 2r) canvas |
| Votes.CountAt | frst.h:103-115 | the count canvas cell after a sequence of votes; it never exceeds the number of voters in absolute value, since each vote moves a cell by at most one |
| Votes.MagAt | frst.h:103-115 | the magnitude canvas cell after a sequence of votes; it never exceeds the votes' total absolute weight in absolute value |
| Votes.CountAtSnoc | frst.h:103-115 | adding one more vote changes each count cell by its Delta and each magnitude cell by its Weighted, and the number of voters by one exactly when it is a vote |
| Votes.VoteWritesAlike | frst.h:103-115 | one vote changes the count and magnitude canvases at the same cells with the same sign; a cell it does not target is unchanged in both |
| Votes.UntouchedCell | frst.h:97-116 | a cell that no vote targets stays zero in both canvases |
| Votes.BrightOnlySigns | frst.h:103-108 | with bright votes only, count and magnitude cells are non-negative and zero at the same cells |
| Votes.DarkOnlySigns | frst.h:110-115 | with dark votes only, count and magnitude cells are non-positive and zero at the same cells |
| Votes.VoteTotal | frst.h:103-115 | one vote whose targets are inside adds [bright] - [dark] to the sum of the count canvas |
| Votes.CountTotal | frst.h:89-118 | the count canvas of any vote sequence with targets inside sums to N x ([bright] - [dark]), N the number of votes |
| Votes.RowVotesAt | frst.h:90-93 | the votes of row i (RowVotes) hold one vote per column, the vote of pixel (i, j) at position j: the inner loop's column order |
| Votes.ImageVotesLength | frst.h:89-90 | the votes of the first k rows (ImageVotes) hold k x W votes, one per pixel |
| Votes.ImageVotesAt | frst.h:89-93 | the vote of pixel (a, b) sits at position a x W + b of ImageVotes: the row-major order of the double loop |
| Votes.RowVotesInCanvas | frst.h:90-116 | every vote of one image row lands inside the padded canvas and has a positive weight |
| Votes.ImageVotesInCanvas | frst.h:84-118 | every vote of the whole image lands inside the padded canvas and has a positive weight, so no write is out of bounds |
| Votes.ConstantRowCastsNoVotes | frst.h:90-97 | no pixel of a row of a constant image passes gnorm > 0 |
| Votes.ConstantImageCastsNoVotes | frst.h:89-118 | no pixel of a constant image casts a vote |
| Votes.ImageCountTotal | frst.h:86-118 | the count canvas of an image sums to N x ([bright] - [dark]), N the number of pixels with a non-zero gradient; 0 in both mode |
| Votes.ImageSigns | frst.h:86-118 | the canvases of an image are non-negative in bright mode, non-positive in dark mode, and the count cell is zero exactly where the magnitude cell is |
| Rounding.Round | frst.h:100-101 | std::round yields an integer within 0.5 of its argument, with the argument's sign, and rounds halfway cases away from zero |
| Rounding.RoundOdd | frst.h:100-101 | std::round is symmetric about zero |
| Rounding.RoundWithin | frst.h:100-101 | rounding a value of [-r, r] gives an integer of [-r, r] |
| Rounding.UnitScaledWithin | frst.h:100-101 | round(g / n * r) lies in [-r, r] whenever -n <= g <= n and n > 0 |
| Rounding.RoundedOffsetAt | frst.h:95-101 | both components of the rounded offset of a gradient that its norm bounds lie in [-r, r] |
| Rounding.EuclideanNormBounds | frst.h:95 | the non-negative n with n * n = gx * gx + gy * gy bounds each gradient component |
| Rounding.EuclideanNormPositive | frst.h:95-97 | that norm is positive exactly for a non-zero gradient |
| Rounding.EuclideanProjectionAt | frst.h:95-101 | at one gradient, the Euclidean norm is positive exactly when the gradient is non-zero and both rounded offset components lie in [-r, r] |
| Rounding.RoundedOffsetValid | frst.h:95-101 | the norm std::sqrt computes over the reals, paired with the rounded offset, meets every condition the accumulation relies on (Projection.Valid) |
| Frst.DecodeMode | frst.h:66-80 | modes 1, 2 and 3 succeed with the polarity whose mode code is that mode (bright, dark, both); every other mode fails with InvalidMode |
| Frst.DecodeModeCode | frst.h:5-7 | decoding inverts the mode code of every polarity with a flag set |
| Frst.KernelSize | frst.h:133-135 | the kernel size is odd, at least 1, and r / 2 or r / 2 + 1 |
| Frst.KernelSizeOfTwelve | frst.h:133-135 | the radius 12 gives a 7 x 7 kernel |
| Frst.AddVote | frst.h:97-116 | one pass of the loop body changes each canvas cell by exactly that pixel's Delta and Weighted, and so extends the accumulated vote sequence by that pixel's vote |
| Frst.CastRowVotes | frst.h:90-117 | the inner loop over row i leaves the canvases holding exactly the votes of rows 0 to i, in visiting order |
| Frst.CastVotes | frst.h:89-118 | the double loop leaves the canvases holding exactly the votes of the whole image |
| Frst.Frst2d | frst.h:57-135 | an unknown mode fails with InvalidMode and every known one succeeds; on success the canvases are fresh, (H + 2r) x (W + 2r), every cell is what the image's votes accumulate there, the kernel size is KernelSize(r), and a constant image leaves both canvases all zero |
| Frst.Pad | frst.h:104-139 | the canvas coordinate frame that the writes at frst.h:104 and 111 and the crop at frst.h:139 share: an (h + 2r) x (w + 2r) grid with pixel (i, j) of the h x w grid at (i + r, j + r) and 0 at every cell outside that window |
| Frst.Crop | frst.h:139 | the crop is an h x w grid whose cell (i, j) is canvas cell (i + r, j + r) |
| Frst.CropOfPad | frst.h:139 | cropping the padded canvas gives back the grid that was padded |

## Left out

- main.cpp is not part of this model. It does image loading, colour conversion, thresholding, contours, moments and display, all of which are I/O and library glue.
- The square root (frst.h:95) and `std::round` over doubles (frst.h:100-101): these are floating point. `Frst2d` takes the norm and the offset as a parameter. `Rounding` proves the offset bound for the same formula over exact reals, not over IEEE doubles.
- Normalisation, power, product and blur (frst.h:120-137): `cv::abs`, `minMaxLoc`, the division by the maximum, `cv::pow`, `mul` and `cv::GaussianBlur` are floating-point OpenCV calls. `Frst2d` returns the two canvases and the kernel size that these steps would use.
- No zero guard at frst.h:124 and frst.h:128: the code divides by the maximum with no check. For a constant image that is 0 / 0, so the final output is NaN, not an all-zero grid. The model proves only that both canvases are all zero in that case; it adds no guard.
- The crop applied to the transform's final result (frst.h:139) is not modelled. `S(Rect(...))` is an OpenCV view that shares memory with `S`; `Crop` models it as a copied grid of values. `Crop` is stated over any grid, not over the blurred score.
- The `alpha` and `stdFactor` parameters feed only the left-out scoring and blur, so they are not parameters of `Frst2d`.
- The `outputImage` zero allocation at frst.h:82 is overwritten at frst.h:139, so it is not modelled.
- Frst2d: takes `radii` as a natural number. A small negative radius is not rejected in the source: `cv::Mat::zeros` at frst.h:84 only fails on a negative size, so with radii = -1 on a 10 x 10 image the canvases shrink to 8 x 8, the writes at frst.h:106-107 and 113-114 reach indices such as -2 outside them, and the crop at frst.h:139 throws on the negative corner. The model excludes that case.
- Frst2d: keeps O_n as integers and the gradients and magnitudes as exact reals. The source uses doubles: they hold the ±1 counts exactly, and the gradients are exact half-integers, but sums of square roots round.
- `bwMorph` (frst.h:151-172) is a wrapper over OpenCV morphology, outside the transform.
