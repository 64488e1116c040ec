/**
 * Cropping a picture to the centred square that fits it. A picture is a
 * two-dimensional array of pixels indexed `[x, y]`, column first, with its
 * origin at (0, 0): `Length0` is its width and `Length1` its height.
 */
module Imaging {

  /** The smaller of two sizes (math.Min on two integers). */
  function Min(a: nat, b: nat): (m: nat)
    ensures m <= a && m <= b && (m == a || m == b)
  {
    if a <= b then a else b
  }

  /** Where a window of `size` starts inside `len` so that it is centred:
      the margins before and after it differ by at most one, the one after
      being the larger. */
  function CenteredOffset(len: nat, size: nat): (off: nat)
    requires size <= len
    ensures off + size <= len
    ensures off <= len - size - off <= off + 1
  {
    (len - size) / 2
  }

  /** A square picture has nothing to cut away. */
  lemma SquareHasNoMargin(w: nat)
    ensures Min(w, w) == w && CenteredOffset(w, Min(w, w)) == 0
  {
  }

  /** The window covers the whole of the shorter side. */
  lemma WindowSpansShorterSide(w: nat, h: nat)
    ensures var size := Min(w, h);
      (size == w ==> CenteredOffset(w, size) == 0) && (size == h ==> CenteredOffset(h, size) == 0)
  {
  }

  /** cropToSquare: a fresh `size`×`size` picture, `size` being the shorter
      side, whose pixel (x, y) is the source pixel of the centred window. */
  method CropToSquare<P(0)>(img: array2<P>) returns (square: array2<P>)
    ensures fresh(square)
    ensures square.Length0 == square.Length1 == Min(img.Length0, img.Length1)
    ensures forall x, y :: 0 <= x < square.Length0 && 0 <= y < square.Length1 ==>
      x + CenteredOffset(img.Length0, square.Length0) < img.Length0
      && y + CenteredOffset(img.Length1, square.Length1) < img.Length1
      && square[x, y] == img[x + CenteredOffset(img.Length0, square.Length0), y + CenteredOffset(img.Length1, square.Length1)]
    ensures img.Length0 == img.Length1 ==>
      forall x, y :: 0 <= x < square.Length0 && 0 <= y < square.Length1 ==> square[x, y] == img[x, y]
  {
    var size := Min(img.Length0, img.Length1);
    var dx := CenteredOffset(img.Length0, size);
    var dy := CenteredOffset(img.Length1, size);
    square := new P[size, size];
    for x := 0 to size
      invariant forall i, j :: 0 <= i < x && 0 <= j < size ==> square[i, j] == img[i + dx, j + dy]
    {
      for y := 0 to size
        invariant forall i, j :: 0 <= i < x && 0 <= j < size ==> square[i, j] == img[i + dx, j + dy]
        invariant forall j :: 0 <= j < y ==> square[x, j] == img[x + dx, j + dy]
      {
        square[x, y] := img[x + dx, y + dy];
      }
    }
  }
}
