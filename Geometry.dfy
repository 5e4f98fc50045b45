/**
 * The geometric transforms: quarter-turn rotations and mirror flips, each an exact
 * remapping of pixel coordinates.
 */
module Geometry {
  import opened Colors
  import opened Images

  /**
   * Picture.rotate90 (clockwise): a height x width picture in which the input pixel
   * (x, y) lands at (height - 1 - y, x).
   */
  function Rotate90(img: Image): (r: Image)
    requires img.Wf()
    ensures r.Wf() && r.width == img.height && r.height == img.width
    ensures forall x, y :: img.InBounds(x, y) ==>
      r.InBounds(img.height - 1 - y, x) && r.At(img.height - 1 - y, x) == img.At(x, y)
  {
    Image(img.height, img.width,
      seq(img.height, i requires 0 <= i < img.height =>
        seq(img.width, j requires 0 <= j < img.width => img.At(j, img.height - 1 - i))))
  }

  /** Picture.rotate180: the same extent, pixel (x, y) read from (width - 1 - x, height - 1 - y). */
  function Rotate180(img: Image): (r: Image)
    requires img.Wf()
    ensures r.Wf() && r.width == img.width && r.height == img.height
    ensures forall x, y :: img.InBounds(x, y) ==>
      img.InBounds(img.width - 1 - x, img.height - 1 - y) &&
      r.At(x, y) == img.At(img.width - 1 - x, img.height - 1 - y)
  {
    Image(img.width, img.height,
      seq(img.width, i requires 0 <= i < img.width =>
        seq(img.height, j requires 0 <= j < img.height => img.At(img.width - 1 - i, img.height - 1 - j))))
  }

  /**
   * Picture.rotate270 (clockwise): a height x width picture in which the input pixel
   * (x, y) lands at (y, width - 1 - x).
   */
  function Rotate270(img: Image): (r: Image)
    requires img.Wf()
    ensures r.Wf() && r.width == img.height && r.height == img.width
    ensures forall x, y :: img.InBounds(x, y) ==>
      r.InBounds(y, img.width - 1 - x) && r.At(y, img.width - 1 - x) == img.At(x, y)
  {
    Image(img.height, img.width,
      seq(img.height, i requires 0 <= i < img.height =>
        seq(img.width, j requires 0 <= j < img.width => img.At(img.width - 1 - j, i))))
  }

  /** Picture.flipHorizontal: the same extent, pixel (x, y) read from (width - 1 - x, y). */
  function FlipHorizontal(img: Image): (r: Image)
    requires img.Wf()
    ensures r.Wf() && r.width == img.width && r.height == img.height
    ensures forall x, y :: img.InBounds(x, y) ==>
      img.InBounds(img.width - 1 - x, y) && r.At(x, y) == img.At(img.width - 1 - x, y)
  {
    Image(img.width, img.height,
      seq(img.width, i requires 0 <= i < img.width =>
        seq(img.height, j requires 0 <= j < img.height => img.At(img.width - 1 - i, j))))
  }

  /** Picture.flipVertical: the same extent, pixel (x, y) read from (x, height - 1 - y). */
  function FlipVertical(img: Image): (r: Image)
    requires img.Wf()
    ensures r.Wf() && r.width == img.width && r.height == img.height
    ensures forall x, y :: img.InBounds(x, y) ==>
      img.InBounds(x, img.height - 1 - y) && r.At(x, y) == img.At(x, img.height - 1 - y)
  {
    Image(img.width, img.height,
      seq(img.width, i requires 0 <= i < img.width =>
        seq(img.height, j requires 0 <= j < img.height => img.At(i, img.height - 1 - j))))
  }

  /** rotate270 undoes rotate90. */
  lemma Rotate270UndoesRotate90(img: Image)
    requires img.Wf()
    ensures Rotate270(Rotate90(img)) == img
  {
    var r := Rotate90(img);
    forall x, y | img.InBounds(x, y)
      ensures Rotate270(r).At(x, y) == img.At(x, y)
    {
      assert Rotate270(r).At(x, y) == r.At(img.height - 1 - y, x);
    }
    Ext(Rotate270(r), img);
  }

  /** rotate90 undoes rotate270. */
  lemma Rotate90UndoesRotate270(img: Image)
    requires img.Wf()
    ensures Rotate90(Rotate270(img)) == img
  {
    var r := Rotate270(img);
    forall x, y | img.InBounds(x, y)
      ensures Rotate90(r).At(x, y) == img.At(x, y)
    {
      assert Rotate90(r).At(x, y) == r.At(y, img.width - 1 - x);
    }
    Ext(Rotate90(r), img);
  }

  /** Two quarter turns make a half turn. */
  lemma Rotate90Twice(img: Image)
    requires img.Wf()
    ensures Rotate90(Rotate90(img)) == Rotate180(img)
  {
    var r := Rotate90(img);
    forall x, y | img.InBounds(x, y)
      ensures Rotate90(r).At(x, y) == Rotate180(img).At(x, y)
    {
      var x', y' := img.width - 1 - x, img.height - 1 - y;
      assert img.InBounds(x', y') && r.At(y, x') == img.At(x', y');
      assert r.InBounds(y, x') && Rotate90(r).At(x, y) == r.At(y, x');
    }
    Ext(Rotate90(r), Rotate180(img));
  }

  /** Two half turns give back the original picture. */
  lemma Rotate180Involution(img: Image)
    requires img.Wf()
    ensures Rotate180(Rotate180(img)) == img
  {
    Ext(Rotate180(Rotate180(img)), img);
  }

  /** Four quarter turns give back the original picture. */
  lemma Rotate90FourTimes(img: Image)
    requires img.Wf()
    ensures Rotate90(Rotate90(Rotate90(Rotate90(img)))) == img
  {
    Rotate90Twice(img);
    Rotate90Twice(Rotate180(img));
    Rotate180Involution(img);
  }

  /** Flipping horizontally twice gives back the original picture. */
  lemma FlipHorizontalInvolution(img: Image)
    requires img.Wf()
    ensures FlipHorizontal(FlipHorizontal(img)) == img
  {
    Ext(FlipHorizontal(FlipHorizontal(img)), img);
  }

  /** Flipping vertically twice gives back the original picture. */
  lemma FlipVerticalInvolution(img: Image)
    requires img.Wf()
    ensures FlipVertical(FlipVertical(img)) == img
  {
    Ext(FlipVertical(FlipVertical(img)), img);
  }

  /** A half turn is a vertical flip followed by a horizontal flip. */
  lemma Rotate180IsBothFlips(img: Image)
    requires img.Wf()
    ensures Rotate180(img) == FlipHorizontal(FlipVertical(img))
  {
    var f := FlipHorizontal(FlipVertical(img));
    forall x, y | img.InBounds(x, y)
      ensures Rotate180(img).At(x, y) == f.At(x, y)
    {
      var x' := img.width - 1 - x;
      assert img.InBounds(x', y) && f.At(x, y) == FlipVertical(img).At(x', y);
    }
    Ext(Rotate180(img), f);
  }

  /** The two flips commute: a horizontal flip followed by a vertical flip is the half turn too. */
  lemma FlipsCommute(img: Image)
    requires img.Wf()
    ensures FlipVertical(FlipHorizontal(img)) == FlipHorizontal(FlipVertical(img))
  {
    var f := FlipVertical(FlipHorizontal(img));
    forall x, y | img.InBounds(x, y)
      ensures Rotate180(img).At(x, y) == f.At(x, y)
    {
      var y' := img.height - 1 - y;
      assert img.InBounds(x, y') && f.At(x, y) == FlipHorizontal(img).At(x, y');
    }
    Ext(Rotate180(img), f);
    Rotate180IsBothFlips(img);
  }
}
