/** The Fast Radial Symmetry Transform entry point frst2d of frst.h (after Loy
    and Zelinsky, ECCV 2002): mode decoding, vote accumulation into two padded
    canvases, the Gaussian kernel size and the final crop. */
module Frst {
  import opened Gradient
  import opened Votes

  const FrstModeBright := 1
  const FrstModeDark := 2
  const FrstModeBoth := 3

  datatype Result<T, E> = Success(value: T) | Failure(error: E)

  /** The exception frst2d throws for a mode it does not know. */
  datatype FrstError = InvalidMode(mode: int)

  /** The mode number of a polarity: the bright flag is worth FrstModeBright and
      the dark flag FrstModeDark, so that both together give FrstModeBoth. */
  function ModeCode(pol: Polarity): int
  {
    (if pol.bright then FrstModeBright else 0) + (if pol.dark then FrstModeDark else 0)
  }

  /** The polarity flags frst2d derives from its mode argument. */
  function DecodeMode(mode: int): (res: Result<Polarity, FrstError>)
    ensures res.Success? <==> FrstModeBright <= mode <= FrstModeBoth
    ensures res.Success? ==> ModeCode(res.value) == mode && (res.value.bright || res.value.dark)
    ensures res.Failure? ==> res.error == InvalidMode(mode)
  {
    if mode == FrstModeBright then Success(Polarity(true, false))
    else if mode == FrstModeDark then Success(Polarity(false, true))
    else if mode == FrstModeBoth then Success(Polarity(true, true))
    else Failure(InvalidMode(mode))
  }

  /** Decoding inverts ModeCode on every polarity with at least one flag set. */
  lemma DecodeModeCode(pol: Polarity)
    requires pol.bright || pol.dark
    ensures DecodeMode(ModeCode(pol)) == Success(pol)
  {
  }

  /** The Gaussian kernel size for radius r: ceil(r / 2) over an integer
      division is r / 2, bumped to the next odd number when even. */
  function KernelSize(r: nat): (k: int)
    ensures k % 2 == 1 && k >= 1
    ensures r / 2 <= k <= r / 2 + 1
  {
    if (r / 2) % 2 == 0 then r / 2 + 1 else r / 2
  }

  /** The radius that the demo program passes gives a 7 x 7 kernel. */
  lemma KernelSizeOfTwelve()
    ensures KernelSize(12) == 7
  {
  }

  /** What frst2d holds just before its normalisation step: the count canvas
      O_n, the magnitude canvas M_n and the blur kernel size it will use. */
  datatype Canvases = Canvases(count: array2<int>, mag: array2<real>, kSize: int)

  /** The canvases hold exactly the votes vs: every cell of the count canvas
      O_n and of the magnitude canvas M_n is what vs accumulates there. */
  ghost predicate Accumulates(on: array2<int>, mn: array2<real>, vs: seq<Vote>, pol: Polarity)
    reads on, mn
  {
    && on.Length0 == mn.Length0 && on.Length1 == mn.Length1
    && forall a, b :: 0 <= a < on.Length0 && 0 <= b < on.Length1 ==>
         on[a, b] == CountAt(vs, pol, Cell(a, b)) && mn[a, b] == MagAt(vs, pol, Cell(a, b))
  }

  /** The body of the vote loop of frst2d for pixel (i, j) with gradient
      (g0, g1): nothing for a zero norm, otherwise +1 and +norm at the forward
      cell in bright mode and -1 and -norm at the backward cell in dark mode. */
  method AddVote(on: array2<int>, mn: array2<real>, i: int, j: int, g0: real, g1: real,
                 radii: nat, bright: bool, dark: bool, p: Projection, ghost done: seq<Vote>)
    requires p.Valid(radii)
    requires 0 <= i < on.Length0 - 2 * radii && 0 <= j < on.Length1 - 2 * radii
    requires Accumulates(on, mn, done, Polarity(bright, dark))
    modifies on, mn
    ensures forall a, b :: 0 <= a < on.Length0 && 0 <= b < on.Length1 ==>
      && on[a, b] == old(on[a, b]) + Delta(PixelVote(g0, g1, i, j, radii, p), Polarity(bright, dark), Cell(a, b))
      && mn[a, b] == old(mn[a, b]) + Weighted(PixelVote(g0, g1, i, j, radii, p), Polarity(bright, dark), Cell(a, b))
    ensures Accumulates(on, mn, done + [PixelVote(g0, g1, i, j, radii, p)], Polarity(bright, dark))
  {
    ghost var pol, v := Polarity(bright, dark), PixelVote(g0, g1, i, j, radii, p);
    var gnorm := p.norm(g0, g1);
    if gnorm > 0.0 {
      var gp := p.offset(g0, g1);
      assert v == Vote(gnorm, Cell(i + gp.drow + radii, j + gp.dcol + radii), Cell(i - gp.drow + radii, j - gp.dcol + radii));
      if bright {
        var px, py := i + gp.drow + radii, j + gp.dcol + radii;
        on[px, py] := on[px, py] + 1;
        mn[px, py] := mn[px, py] + gnorm;
      }
      if dark {
        var nx, ny := i - gp.drow + radii, j - gp.dcol + radii;
        on[nx, ny] := on[nx, ny] - 1;
        mn[nx, ny] := mn[nx, ny] - gnorm;
      }
    } else {
      assert v == NoVote;
    }
    forall a, b | 0 <= a < on.Length0 && 0 <= b < on.Length1
      ensures on[a, b] == CountAt(done + [v], pol, Cell(a, b))
      ensures mn[a, b] == MagAt(done + [v], pol, Cell(a, b))
    {
      assert on[a, b] == old(on[a, b]) + Delta(v, pol, Cell(a, b));
      assert mn[a, b] == old(mn[a, b]) + Weighted(v, pol, Cell(a, b));
      CountAtSnoc(done, v, pol, Cell(a, b));
    }
  }

  lemma AppendSnoc<T>(a: seq<T>, b: seq<T>, x: T)
    ensures (a + b) + [x] == a + (b + [x])
  {
  }

  /** One pass of the inner vote loop of frst2d: every pixel of row i, in
      column order, adds its vote to the canvases. */
  method CastRowVotes(img: array2<Byte>, gx: array2<real>, gy: array2<real>, on: array2<int>, mn: array2<real>,
                      i: int, radii: nat, bright: bool, dark: bool, p: Projection)
    requires p.Valid(radii) && 0 <= i < img.Length0
    requires gx != mn && gy != mn
    requires gx.Length0 == gy.Length0 == img.Length0 && gx.Length1 == gy.Length1 == img.Length1
    requires forall y, x :: 0 <= y < img.Length0 && 0 <= x < img.Length1 ==>
      gx[y, x] == GradXAt(img, y, x) && gy[y, x] == GradYAt(img, y, x)
    requires on.Length0 == img.Length0 + 2 * radii && on.Length1 == img.Length1 + 2 * radii
    requires Accumulates(on, mn, ImageVotes(img, i, radii, p), Polarity(bright, dark))
    modifies on, mn
    ensures Accumulates(on, mn, ImageVotes(img, i + 1, radii, p), Polarity(bright, dark))
  {
    ghost var pol, rows := Polarity(bright, dark), ImageVotes(img, i, radii, p);
    ghost var done := rows;
    var j := 0;
    assert rows + RowVotes(img, i, 0, radii, p) == rows;
    while j < img.Length1
      invariant 0 <= j <= img.Length1
      invariant done == rows + RowVotes(img, i, j, radii, p)
      invariant Accumulates(on, mn, done, pol)
    {
      var g0 := gx[i, j];
      var g1 := gy[i, j];
      ghost var v := PixelVote(g0, g1, i, j, radii, p);
      AppendSnoc(rows, RowVotes(img, i, j, radii, p), v);
      AddVote(on, mn, i, j, g0, g1, radii, bright, dark, p, done);
      done := done + [v];
      j := j + 1;
    }
  }

  /** The vote loop of frst2d: every pixel of the image, in row-major order,
      adds its vote to canvases that start out holding no votes. */
  method CastVotes(img: array2<Byte>, gx: array2<real>, gy: array2<real>, on: array2<int>, mn: array2<real>,
                   radii: nat, bright: bool, dark: bool, p: Projection)
    requires p.Valid(radii)
    requires gx != mn && gy != mn
    requires gx.Length0 == gy.Length0 == img.Length0 && gx.Length1 == gy.Length1 == img.Length1
    requires forall y, x :: 0 <= y < img.Length0 && 0 <= x < img.Length1 ==>
      gx[y, x] == GradXAt(img, y, x) && gy[y, x] == GradYAt(img, y, x)
    requires on.Length0 == img.Length0 + 2 * radii && on.Length1 == img.Length1 + 2 * radii
    requires Accumulates(on, mn, [], Polarity(bright, dark))
    modifies on, mn
    ensures Accumulates(on, mn, ImageVotes(img, img.Length0, radii, p), Polarity(bright, dark))
  {
    var i := 0;
    while i < img.Length0
      invariant 0 <= i <= img.Length0
      invariant Accumulates(on, mn, ImageVotes(img, i, radii, p), Polarity(bright, dark))
    {
      CastRowVotes(img, gx, gy, on, mn, i, radii, bright, dark, p);
      i := i + 1;
    }
  }

  /** frst2d up to the normalisation: gradients, mode decoding (throwing before
      any canvas exists), the vote loop over a canvas padded by the radius, and
      the kernel size. The square root and the rounded offset come in as p. */
  method Frst2d(img: array2<Byte>, radii: nat, mode: int, p: Projection) returns (res: Result<Canvases, FrstError>)
    requires p.Valid(radii)
    ensures DecodeMode(mode).Failure? ==> res == Failure(InvalidMode(mode))
    ensures DecodeMode(mode).Success? ==> res.Success?
    ensures res.Success? ==>
      var c, pol, votes := res.value, DecodeMode(mode).value, ImageVotes(img, img.Length0, radii, p);
      && fresh(c.count) && fresh(c.mag)
      && c.count.Length0 == c.mag.Length0 == img.Length0 + 2 * radii
      && c.count.Length1 == c.mag.Length1 == img.Length1 + 2 * radii
      && Accumulates(c.count, c.mag, votes, pol)
      && c.kSize == KernelSize(radii)
    ensures res.Success? && Constant(img) ==>
      forall a, b :: 0 <= a < res.value.count.Length0 && 0 <= b < res.value.count.Length1 ==>
        res.value.count[a, b] == 0 && res.value.mag[a, b] == 0.0
  {
    var width := img.Length1;
    var height := img.Length0;
    var gx := GradX(img);
    var gy := GradY(img);

    var dark := false;
    var bright := false;
    if mode == FrstModeBright {
      bright := true;
    } else if mode == FrstModeDark {
      dark := true;
    } else if mode == FrstModeBoth {
      bright := true;
      dark := true;
    } else {
      return Failure(InvalidMode(mode));
    }
    ghost var pol := Polarity(bright, dark);
    assert DecodeMode(mode) == Success(pol);

    var on := new int[height + 2 * radii, width + 2 * radii]((_, _) => 0);
    var mn := new real[height + 2 * radii, width + 2 * radii]((_, _) => 0.0);

    CastVotes(img, gx, gy, on, mn, radii, bright, dark, p);

    var kSize := radii / 2;
    if kSize % 2 == 0 {
      kSize := kSize + 1;
    }

    forall a, b | Constant(img) && 0 <= a < on.Length0 && 0 <= b < on.Length1
      ensures on[a, b] == 0 && mn[a, b] == 0.0
    {
      ConstantImageCastsNoVotes(img, height, radii, p);
      UntouchedCell(ImageVotes(img, height, radii, p), pol, Cell(a, b));
    }
    res := Success(Canvases(on, mn, kSize));
  }

  /** True when g has h rows of w samples each. */
  predicate IsGrid<T>(g: seq<seq<T>>, h: nat, w: nat)
  {
    |g| == h && forall i :: 0 <= i < h ==> |g[i]| == w
  }

  /** The region of interest S(Rect(r, r, w, h)): the h x w window whose
      top-left corner is (r, r). */
  function Crop(s: seq<seq<real>>, r: nat, h: nat, w: nat): (out: seq<seq<real>>)
    requires r + h <= |s| && forall a :: r <= a < r + h ==> r + w <= |s[a]|
    ensures IsGrid(out, h, w)
    ensures forall i, j :: 0 <= i < h && 0 <= j < w ==> out[i][j] == s[i + r][j + r]
  {
    seq(h, i requires 0 <= i < h => s[i + r][r .. r + w])
  }

  /** The canvas layout: an h x w grid placed at (r, r) in an (h + 2r) x (w + 2r)
      canvas of zeros, so that pixel (i, j) sits at canvas cell (i + r, j + r). */
  function Pad(g: seq<seq<real>>, r: nat, h: nat, w: nat): (s: seq<seq<real>>)
    requires IsGrid(g, h, w)
    ensures IsGrid(s, h + 2 * r, w + 2 * r)
    ensures forall i, j :: 0 <= i < h && 0 <= j < w ==> s[i + r][j + r] == g[i][j]
    ensures forall a, b :: 0 <= a < h + 2 * r && 0 <= b < w + 2 * r && !(r <= a < r + h && r <= b < r + w) ==>
      s[a][b] == 0.0
  {
    seq(h + 2 * r, a requires 0 <= a < h + 2 * r =>
      seq(w + 2 * r, b requires 0 <= b < w + 2 * r =>
        if r <= a < r + h && r <= b < r + w then g[a - r][b - r] else 0.0))
  }

  /** The crop undoes the padding: the result has the image's size and its
      cell (i, j) is the canvas cell of pixel (i, j). */
  lemma CropOfPad(g: seq<seq<real>>, r: nat, h: nat, w: nat)
    requires IsGrid(g, h, w)
    ensures Crop(Pad(g, r, h, w), r, h, w) == g
  {
    var out := Crop(Pad(g, r, h, w), r, h, w);
    forall i | 0 <= i < h
      ensures out[i] == g[i]
    {
      assert forall j :: 0 <= j < w ==> out[i][j] == g[i][j];
    }
  }
}
