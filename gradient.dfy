/** Central-difference gradients of an 8-bit single-channel image (frst.h, grady and gradx). */
module Gradient {

  /** An 8-bit unsigned intensity sample. */
  type Byte = b: int | 0 <= b < 256

  /** True when every sample of the image has the same value. */
  ghost predicate Constant(img: array2<Byte>)
    reads img
  {
    forall y, x, y', x' ::
      0 <= y < img.Length0 && 0 <= x < img.Length1 && 0 <= y' < img.Length0 && 0 <= x' < img.Length1 ==>
        img[y, x] == img[y', x']
  }

  /** The value grady stores at (y, x): half the difference of the right and left
      neighbours in the same row, and 0 in the first and last column. Despite the
      function's name in the source, this differences along a row. */
  ghost function GradYAt(img: array2<Byte>, y: int, x: int): (g: real)
    reads img
    requires 0 <= y < img.Length0 && 0 <= x < img.Length1
    ensures -127.5 <= g <= 127.5
    ensures (x == 0 || x == img.Length1 - 1) ==> g == 0.0
  {
    if 0 < x < img.Length1 - 1 then (img[y, x + 1] as int - img[y, x - 1] as int) as real / 2.0 else 0.0
  }

  /** The value gradx stores at (y, x): half the difference of the neighbours
      below and above in the same column, and 0 in the first and last row. */
  ghost function GradXAt(img: array2<Byte>, y: int, x: int): (g: real)
    reads img
    requires 0 <= y < img.Length0 && 0 <= x < img.Length1
    ensures -127.5 <= g <= 127.5
    ensures (y == 0 || y == img.Length0 - 1) ==> g == 0.0
  {
    if 0 < y < img.Length0 - 1 then (img[y + 1, x] as int - img[y - 1, x] as int) as real / 2.0 else 0.0
  }

  /** A constant image has a zero gradient everywhere, in both directions. */
  lemma ConstantImageFlatGradient(img: array2<Byte>, y: int, x: int)
    requires Constant(img)
    requires 0 <= y < img.Length0 && 0 <= x < img.Length1
    ensures GradXAt(img, y, x) == 0.0 && GradYAt(img, y, x) == 0.0
  {
    if 0 < y < img.Length0 - 1 {
      assert img[y + 1, x] == img[y - 1, x];
    }
    if 0 < x < img.Length1 - 1 {
      assert img[y, x + 1] == img[y, x - 1];
    }
  }

  /** grady: a fresh zeroed grid of the image's size whose inner columns receive
      the row-wise central difference. */
  method GradY(img: array2<Byte>) returns (out: array2<real>)
    ensures fresh(out)
    ensures out.Length0 == img.Length0 && out.Length1 == img.Length1
    ensures forall y, x :: 0 <= y < out.Length0 && 0 <= x < out.Length1 ==> out[y, x] == GradYAt(img, y, x)
  {
    out := new real[img.Length0, img.Length1]((_, _) => 0.0);
    var y := 0;
    while y < img.Length0
      invariant 0 <= y <= img.Length0
      invariant forall yy, xx :: 0 <= yy < img.Length0 && 0 <= xx < img.Length1 ==>
        out[yy, xx] == if yy < y then GradYAt(img, yy, xx) else 0.0
    {
      var x := 1;
      while x < img.Length1 - 1
        invariant 1 <= x && (img.Length1 >= 2 ==> x <= img.Length1 - 1)
        invariant forall yy, xx :: 0 <= yy < img.Length0 && 0 <= xx < img.Length1 ==>
          out[yy, xx] == if yy < y || (yy == y && xx < x) then GradYAt(img, yy, xx) else 0.0
      {
        out[y, x] := (img[y, x + 1] as int - img[y, x - 1] as int) as real / 2.0;
        x := x + 1;
      }
      y := y + 1;
    }
  }

  /** gradx: a fresh zeroed grid of the image's size whose inner rows receive
      the column-wise central difference. */
  method GradX(img: array2<Byte>) returns (out: array2<real>)
    ensures fresh(out)
    ensures out.Length0 == img.Length0 && out.Length1 == img.Length1
    ensures forall y, x :: 0 <= y < out.Length0 && 0 <= x < out.Length1 ==> out[y, x] == GradXAt(img, y, x)
  {
    out := new real[img.Length0, img.Length1]((_, _) => 0.0);
    var y := 1;
    while y < img.Length0 - 1
      invariant 1 <= y && (img.Length0 >= 2 ==> y <= img.Length0 - 1)
      invariant forall yy, xx :: 0 <= yy < img.Length0 && 0 <= xx < img.Length1 ==>
        out[yy, xx] == if 1 <= yy < y then GradXAt(img, yy, xx) else 0.0
    {
      var x := 0;
      while x < img.Length1
        invariant 0 <= x <= img.Length1
        invariant forall yy, xx :: 0 <= yy < img.Length0 && 0 <= xx < img.Length1 ==>
          out[yy, xx] == if 1 <= yy < y || (yy == y && xx < x) then GradXAt(img, yy, xx) else 0.0
      {
        out[y, x] := (img[y + 1, x] as int - img[y - 1, x] as int) as real / 2.0;
        x := x + 1;
      }
      y := y + 1;
    }
  }
}
