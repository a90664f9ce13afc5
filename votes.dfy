/** The votes frst2d casts and what they accumulate into its two padded
    canvases: the count canvas O_n and the magnitude canvas M_n. */
module Votes {
  import opened Sums
  import opened Gradient

  /** A (row, column) position in a canvas. */
  datatype Cell = Cell(row: int, col: int)

  /** The integer projection offset gp: drow is added to the row index and dcol
      to the column index. */
  datatype Offset = Offset(drow: int, dcol: int)

  /** Which polarities cast votes: bright ones forward, dark ones backward. */
  datatype Polarity = Polarity(bright: bool, dark: bool)

  /** What one pixel contributes: nothing when its gradient norm is zero, and
      otherwise its norm together with the canvas cells it projects to. */
  datatype Vote = NoVote | Vote(weight: real, forward: Cell, backward: Cell)

  /** The two per-pixel computations that frst2d performs in floating point:
      the gradient norm (a square root) and the rounded, radius-scaled unit
      gradient. The model keeps them abstract. */
  datatype Projection = Projection(norm: (real, real) -> real, offset: (real, real) -> Offset)
  {
    /** What the model relies on: the norm is never negative and is positive
        exactly for a non-zero gradient, and every offset component lies in
        [-r, r]. */
    ghost predicate Valid(r: nat)
    {
      && (forall gx, gy :: norm(gx, gy) >= 0.0 && (norm(gx, gy) > 0.0 <==> gx != 0.0 || gy != 0.0))
      && (forall gx, gy :: -(r as int) <= offset(gx, gy).drow <= r && -(r as int) <= offset(gx, gy).dcol <= r)
    }
  }

  predicate Inside(c: Cell, m: int, n: int)
  {
    0 <= c.row < m && 0 <= c.col < n
  }

  /** The vote of pixel (i, j) whose gradient is (gx, gy), on a canvas padded by r. */
  function PixelVote(gx: real, gy: real, i: int, j: int, r: nat, p: Projection): (v: Vote)
    ensures v.Vote? <==> p.norm(gx, gy) > 0.0
    ensures v.Vote? ==> v.weight == p.norm(gx, gy)
    ensures v.Vote? ==>
      && v.forward.row + v.backward.row == 2 * (i + r) && v.forward.col + v.backward.col == 2 * (j + r)
      && v.forward.row - v.backward.row == 2 * p.offset(gx, gy).drow
      && v.forward.col - v.backward.col == 2 * p.offset(gx, gy).dcol
  {
    var n := p.norm(gx, gy);
    if n > 0.0 then
      var gp := p.offset(gx, gy);
      Vote(n, Cell(i + gp.drow + r, j + gp.dcol + r), Cell(i - gp.drow + r, j - gp.dcol + r))
    else
      NoVote
  }

  /** Padding by r keeps both projections of every pixel of an h x w image
      inside the (h + 2r) x (w + 2r) canvas, whenever the offset is within [-r, r]. */
  lemma ProjectionInCanvas(i: int, j: int, gp: Offset, r: nat, h: nat, w: nat)
    requires 0 <= i < h && 0 <= j < w
    requires -(r as int) <= gp.drow <= r && -(r as int) <= gp.dcol <= r
    ensures Inside(Cell(i + gp.drow + r, j + gp.dcol + r), h + 2 * r, w + 2 * r)
    ensures Inside(Cell(i - gp.drow + r, j - gp.dcol + r), h + 2 * r, w + 2 * r)
  {
  }

  /** The change one vote makes to the count cell c. */
  function Delta(v: Vote, pol: Polarity, c: Cell): int
  {
    if v.NoVote? then 0
    else (if pol.bright && v.forward == c then 1 else 0) - (if pol.dark && v.backward == c then 1 else 0)
  }

  /** The change one vote makes to the magnitude cell c. */
  function Weighted(v: Vote, pol: Polarity, c: Cell): real
  {
    if v.NoVote? then 0.0
    else (if pol.bright && v.forward == c then v.weight else 0.0) - (if pol.dark && v.backward == c then v.weight else 0.0)
  }

  /** True when v writes to cell c under the polarity pol. */
  predicate Targets(v: Vote, pol: Polarity, c: Cell)
  {
    v.Vote? && ((pol.bright && v.forward == c) || (pol.dark && v.backward == c))
  }

  /** Cell c of the count canvas after the votes vs, in order, were added to a zero canvas. */
  function CountAt(vs: seq<Vote>, pol: Polarity, c: Cell): (n: int)
    ensures -(Voters(vs) as int) <= n <= Voters(vs)
  {
    if |vs| == 0 then 0 else CountAt(vs[..|vs| - 1], pol, c) + Delta(vs[|vs| - 1], pol, c)
  }

  /** Cell c of the magnitude canvas after the votes vs were added to a zero canvas. */
  function MagAt(vs: seq<Vote>, pol: Polarity, c: Cell): (m: real)
    ensures -Mass(vs) <= m <= Mass(vs)
  {
    if |vs| == 0 then 0.0 else MagAt(vs[..|vs| - 1], pol, c) + Weighted(vs[|vs| - 1], pol, c)
  }

  /** The whole count canvas, as a field over cells. */
  function CountField(vs: seq<Vote>, pol: Polarity): (int, int) -> int
  {
    (a, b) => CountAt(vs, pol, Cell(a, b))
  }

  /** The number of pixels in vs that cast a vote. */
  function Voters(vs: seq<Vote>): nat
  {
    if |vs| == 0 then 0 else Voters(vs[..|vs| - 1]) + (if vs[|vs| - 1].Vote? then 1 else 0)
  }

  /** The total absolute weight of the votes in vs. */
  function Mass(vs: seq<Vote>): real
  {
    if |vs| == 0 then 0.0
    else
      var v := vs[|vs| - 1];
      Mass(vs[..|vs| - 1]) + (if v.NoVote? then 0.0 else if v.weight < 0.0 then -v.weight else v.weight)
  }

  lemma CountAtSnoc(vs: seq<Vote>, v: Vote, pol: Polarity, c: Cell)
    ensures CountAt(vs + [v], pol, c) == CountAt(vs, pol, c) + Delta(v, pol, c)
    ensures MagAt(vs + [v], pol, c) == MagAt(vs, pol, c) + Weighted(v, pol, c)
    ensures Voters(vs + [v]) == Voters(vs) + (if v.Vote? then 1 else 0)
  {
    assert (vs + [v])[..|vs|] == vs;
  }

  /** One vote changes the count and the magnitude canvas at the same cells and
      with the same sign, as its weight is positive. */
  lemma VoteWritesAlike(v: Vote, pol: Polarity, c: Cell)
    requires v.Vote? ==> v.weight > 0.0
    ensures Weighted(v, pol, c) > 0.0 <==> Delta(v, pol, c) > 0
    ensures Weighted(v, pol, c) < 0.0 <==> Delta(v, pol, c) < 0
    ensures !Targets(v, pol, c) ==> Delta(v, pol, c) == 0 && Weighted(v, pol, c) == 0.0
  {
  }

  /** A pixel casts a vote exactly when its gradient is non-zero; the vote then
      carries the norm as a positive weight and lands on the projected cells. */
  lemma PixelVoteCases(gx: real, gy: real, i: int, j: int, r: nat, p: Projection)
    requires p.Valid(r)
    ensures PixelVote(gx, gy, i, j, r, p).NoVote? <==> gx == 0.0 && gy == 0.0
    ensures PixelVote(gx, gy, i, j, r, p).Vote? ==>
      var v, gp := PixelVote(gx, gy, i, j, r, p), p.offset(gx, gy);
      && v.weight == p.norm(gx, gy) > 0.0
      && v.forward == Cell(i + gp.drow + r, j + gp.dcol + r)
      && v.backward == Cell(i - gp.drow + r, j - gp.dcol + r)
  {
  }

  /** A cell that no vote targets stays zero in both canvases; in particular
      non-voting pixels change nothing. */
  lemma {:induction false} UntouchedCell(vs: seq<Vote>, pol: Polarity, c: Cell)
    requires forall v :: v in vs ==> !Targets(v, pol, c)
    ensures CountAt(vs, pol, c) == 0 && MagAt(vs, pol, c) == 0.0
  {
    if |vs| > 0 {
      assert forall v :: v in vs[..|vs| - 1] ==> v in vs;
      assert vs[|vs| - 1] in vs;
      UntouchedCell(vs[..|vs| - 1], pol, c);
    }
  }

  /** With bright votes only, every count cell is non-negative, every magnitude
      cell too, and the two are zero at exactly the same cells. */
  lemma {:induction false} BrightOnlySigns(vs: seq<Vote>, c: Cell)
    requires forall v :: v in vs && v.Vote? ==> v.weight > 0.0
    ensures CountAt(vs, Polarity(true, false), c) >= 0
    ensures MagAt(vs, Polarity(true, false), c) >= 0.0
    ensures CountAt(vs, Polarity(true, false), c) == 0 <==> MagAt(vs, Polarity(true, false), c) == 0.0
  {
    if |vs| > 0 {
      assert forall v :: v in vs[..|vs| - 1] ==> v in vs;
      BrightOnlySigns(vs[..|vs| - 1], c);
    }
  }

  /** With dark votes only, every count cell is non-positive, every magnitude
      cell too, and the two are zero at exactly the same cells. */
  lemma {:induction false} DarkOnlySigns(vs: seq<Vote>, c: Cell)
    requires forall v :: v in vs && v.Vote? ==> v.weight > 0.0
    ensures CountAt(vs, Polarity(false, true), c) <= 0
    ensures MagAt(vs, Polarity(false, true), c) <= 0.0
    ensures CountAt(vs, Polarity(false, true), c) == 0 <==> MagAt(vs, Polarity(false, true), c) == 0.0
  {
    if |vs| > 0 {
      assert forall v :: v in vs[..|vs| - 1] ==> v in vs;
      DarkOnlySigns(vs[..|vs| - 1], c);
    }
  }

  /** Over an m x n canvas that holds all its targets, one vote adds +1 for
      the bright polarity and -1 for the dark one to the count canvas's total. */
  lemma VoteTotal(v: Vote, pol: Polarity, m: nat, n: nat)
    requires v.Vote? ==> Inside(v.forward, m, n) && Inside(v.backward, m, n)
    ensures RectSum((a, b) => Delta(v, pol, Cell(a, b)), m, n)
         == (if v.Vote? && pol.bright then 1 else 0) - (if v.Vote? && pol.dark then 1 else 0)
  {
    var d := (a, b) => Delta(v, pol, Cell(a, b));
    if v.NoVote? {
      RectSumPoint(d, 0, 0, 0, m, n);
    } else {
      var kf := if pol.bright then 1 else 0;
      var kb := if pol.dark then -1 else 0;
      var f := (a, b) => if a == v.forward.row && b == v.forward.col then kf else 0;
      var g := (a, b) => if a == v.backward.row && b == v.backward.col then kb else 0;
      RectSumPoint(f, v.forward.row, v.forward.col, kf, m, n);
      RectSumPoint(g, v.backward.row, v.backward.col, kb, m, n);
      RectSumAdd(f, g, d, m, n);
    }
  }

  /** The count canvas sums to N for bright votes, -N for dark, and 0 for both,
      where N is the number of voting pixels, provided every target is inside. */
  lemma {:induction false} CountTotal(vs: seq<Vote>, pol: Polarity, m: nat, n: nat)
    requires forall v :: v in vs && v.Vote? ==> Inside(v.forward, m, n) && Inside(v.backward, m, n)
    ensures RectSum(CountField(vs, pol), m, n)
         == (if pol.bright then Voters(vs) else 0) - (if pol.dark then Voters(vs) else 0)
  {
    if |vs| == 0 {
      RectSumPoint(CountField(vs, pol), 0, 0, 0, m, n);
    } else {
      var init, v := vs[..|vs| - 1], vs[|vs| - 1];
      assert vs == init + [v];
      assert forall u :: u in init ==> u in vs;
      CountTotal(init, pol, m, n);
      var d := (a, b) => Delta(v, pol, Cell(a, b));
      forall a, b ensures CountField(vs, pol)(a, b) == CountField(init, pol)(a, b) + d(a, b) {
        CountAtSnoc(init, v, pol, Cell(a, b));
      }
      RectSumAdd(CountField(init, pol), d, CountField(vs, pol), m, n);
      VoteTotal(v, pol, m, n);
      CountAtSnoc(init, v, pol, Cell(0, 0));
    }
  }

  /** The votes of row i of the image, columns 0 to n - 1, in column order. */
  ghost function RowVotes(img: array2<Byte>, i: int, n: nat, r: nat, p: Projection): (vs: seq<Vote>)
    reads img
    requires 0 <= i < img.Length0 && n <= img.Length1
  {
    if n == 0 then []
    else RowVotes(img, i, n - 1, r, p) + [PixelVote(GradXAt(img, i, n - 1), GradYAt(img, i, n - 1), i, n - 1, r, p)]
  }

  /** The votes of rows 0 to k - 1 of the image in the order frst2d visits them. */
  ghost function ImageVotes(img: array2<Byte>, k: nat, r: nat, p: Projection): (vs: seq<Vote>)
    reads img
    requires k <= img.Length0
  {
    if k == 0 then [] else ImageVotes(img, k - 1, r, p) + RowVotes(img, k - 1, img.Length1, r, p)
  }

  /** Pixel (a, b) is visited at position a * w + b of a row-major scan of
      rows of width w. */
  lemma RowMajorIndex(a: int, b: int, h: int, w: int)
    requires 0 <= a < h && 0 <= b < w
    ensures 0 <= a * w + b < h * w
  {
    assert a * w + b < (a + 1) * w;
    assert (a + 1) * w <= h * w by {
      assert h * w - (a + 1) * w == (h - a - 1) * w;
    }
  }

  /** Row i's votes hold, at position j, the vote of pixel (i, j). */
  lemma {:induction false} RowVotesAt(img: array2<Byte>, i: int, n: nat, r: nat, p: Projection)
    requires 0 <= i < img.Length0 && n <= img.Length1
    ensures |RowVotes(img, i, n, r, p)| == n
    ensures forall j :: 0 <= j < n ==>
      RowVotes(img, i, n, r, p)[j] == PixelVote(GradXAt(img, i, j), GradYAt(img, i, j), i, j, r, p)
  {
    if n > 0 {
      RowVotesAt(img, i, n - 1, r, p);
    }
  }

  /** The image's votes hold one vote per pixel. */
  lemma {:induction false} ImageVotesLength(img: array2<Byte>, k: nat, r: nat, p: Projection)
    requires k <= img.Length0
    ensures |ImageVotes(img, k, r, p)| == k * img.Length1
  {
    if k > 0 {
      ImageVotesLength(img, k - 1, r, p);
      RowVotesAt(img, k - 1, img.Length1, r, p);
      assert (k - 1) * img.Length1 + img.Length1 == k * img.Length1;
    }
  }

  /** The vote of pixel (a, b) sits at position a * W + b of the image's votes:
      frst2d visits the pixels row by row and each row column by column. */
  lemma {:induction false} ImageVotesAt(img: array2<Byte>, k: nat, r: nat, p: Projection, a: int, b: int)
    requires k <= img.Length0 && 0 <= a < k && 0 <= b < img.Length1
    ensures 0 <= a * img.Length1 + b < |ImageVotes(img, k, r, p)|
    ensures ImageVotes(img, k, r, p)[a * img.Length1 + b]
         == PixelVote(GradXAt(img, a, b), GradYAt(img, a, b), a, b, r, p)
  {
    var w := img.Length1;
    var prev, row := ImageVotes(img, k - 1, r, p), RowVotes(img, k - 1, w, r, p);
    assert ImageVotes(img, k, r, p) == prev + row;
    ImageVotesLength(img, k - 1, r, p);
    ImageVotesLength(img, k, r, p);
    RowVotesAt(img, k - 1, w, r, p);
    RowMajorIndex(a, b, k, w);
    var m := a * w;
    if a < k - 1 {
      RowMajorIndex(a, b, k - 1, w);
      ImageVotesAt(img, k - 1, r, p, a, b);
      assert (prev + row)[m + b] == prev[m + b];
    } else {
      assert m == (k - 1) * w;
      assert (prev + row)[m + b] == row[b];
    }
  }

  lemma {:induction false} RowVotesInCanvas(img: array2<Byte>, i: int, n: nat, r: nat, p: Projection)
    requires 0 <= i < img.Length0 && n <= img.Length1
    requires p.Valid(r)
    ensures forall v :: v in RowVotes(img, i, n, r, p) && v.Vote? ==>
      && Inside(v.forward, img.Length0 + 2 * r, img.Length1 + 2 * r)
      && Inside(v.backward, img.Length0 + 2 * r, img.Length1 + 2 * r)
      && v.weight > 0.0
  {
    if n > 0 {
      RowVotesInCanvas(img, i, n - 1, r, p);
      var gx, gy := GradXAt(img, i, n - 1), GradYAt(img, i, n - 1);
      ProjectionInCanvas(i, n - 1, p.offset(gx, gy), r, img.Length0, img.Length1);
    }
  }

  /** Every vote of an image lands inside the padded canvas and carries a
      positive weight: the padding invariant of frst2d. */
  lemma {:induction false} ImageVotesInCanvas(img: array2<Byte>, k: nat, r: nat, p: Projection)
    requires k <= img.Length0
    requires p.Valid(r)
    ensures forall v :: v in ImageVotes(img, k, r, p) && v.Vote? ==>
      && Inside(v.forward, img.Length0 + 2 * r, img.Length1 + 2 * r)
      && Inside(v.backward, img.Length0 + 2 * r, img.Length1 + 2 * r)
      && v.weight > 0.0
  {
    if k > 0 {
      ImageVotesInCanvas(img, k - 1, r, p);
      RowVotesInCanvas(img, k - 1, img.Length1, r, p);
    }
  }

  lemma {:induction false} ConstantRowCastsNoVotes(img: array2<Byte>, i: int, n: nat, r: nat, p: Projection)
    requires 0 <= i < img.Length0 && n <= img.Length1
    requires Constant(img) && p.Valid(r)
    ensures forall v :: v in RowVotes(img, i, n, r, p) ==> v == NoVote
  {
    if n > 0 {
      ConstantRowCastsNoVotes(img, i, n - 1, r, p);
      ConstantImageFlatGradient(img, i, n - 1);
      assert !(p.norm(0.0, 0.0) > 0.0);
    }
  }

  /** A constant image casts no vote at all. */
  lemma {:induction false} ConstantImageCastsNoVotes(img: array2<Byte>, k: nat, r: nat, p: Projection)
    requires k <= img.Length0
    requires Constant(img) && p.Valid(r)
    ensures forall v :: v in ImageVotes(img, k, r, p) ==> v == NoVote
  {
    if k > 0 {
      ConstantImageCastsNoVotes(img, k - 1, r, p);
      ConstantRowCastsNoVotes(img, k - 1, img.Length1, r, p);
    }
  }

  /** The count canvas of a whole image sums to N x ([bright] - [dark]), N being
      the number of pixels with a non-zero gradient. */
  lemma ImageCountTotal(img: array2<Byte>, r: nat, p: Projection, pol: Polarity)
    requires p.Valid(r)
    ensures RectSum(CountField(ImageVotes(img, img.Length0, r, p), pol), img.Length0 + 2 * r, img.Length1 + 2 * r)
         == (if pol.bright then Voters(ImageVotes(img, img.Length0, r, p)) else 0)
          - (if pol.dark then Voters(ImageVotes(img, img.Length0, r, p)) else 0)
  {
    ImageVotesInCanvas(img, img.Length0, r, p);
    CountTotal(ImageVotes(img, img.Length0, r, p), pol, img.Length0 + 2 * r, img.Length1 + 2 * r);
  }

  /** In bright mode every cell of both canvases of an image is non-negative,
      in dark mode non-positive, and in either the count cell is zero exactly
      where the magnitude cell is. */
  lemma ImageSigns(img: array2<Byte>, r: nat, p: Projection, c: Cell)
    requires p.Valid(r)
    ensures var vs := ImageVotes(img, img.Length0, r, p);
      && CountAt(vs, Polarity(true, false), c) >= 0 && MagAt(vs, Polarity(true, false), c) >= 0.0
      && (CountAt(vs, Polarity(true, false), c) == 0 <==> MagAt(vs, Polarity(true, false), c) == 0.0)
      && CountAt(vs, Polarity(false, true), c) <= 0 && MagAt(vs, Polarity(false, true), c) <= 0.0
      && (CountAt(vs, Polarity(false, true), c) == 0 <==> MagAt(vs, Polarity(false, true), c) == 0.0)
  {
    ImageVotesInCanvas(img, img.Length0, r, p);
    BrightOnlySigns(ImageVotes(img, img.Length0, r, p), c);
    DarkOnlySigns(ImageVotes(img, img.Length0, r, p), c);
  }
}
