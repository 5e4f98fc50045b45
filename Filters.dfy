/**
 * The 3x3 box blur: interior pixels become the truncated per-channel mean of their
 * neighbourhood, border pixels are copied.
 */
module Filters {
  import opened Colors
  import opened Images
  import opened Arithmetic

  /** (x, y) is not on the outer row or column, so all eight neighbours exist. */
  predicate Interior(img: Image, x: int, y: int)
  {
    0 < x < img.width - 1 && 0 < y < img.height - 1
  }

  /**
   * Channel k summed over the pixels (x + dx, y + dy) for the first `rows` offsets
   * dy = -1, 0, 1, in blur's inner-loop order.
   */
  function ColumnSum(img: Image, x: int, y: int, dx: int, rows: nat, k: Component): (s: int)
    requires img.Wf() && Interior(img, x, y) && -1 <= dx <= 1 && rows <= 3
    ensures 0 <= s <= 255 * rows
  {
    if rows == 0 then 0
    else ColumnSum(img, x, y, dx, rows - 1, k) + img.At(x + dx, y + rows - 2).Get(k)
  }

  /** Channel k summed over the whole columns dx = -1 .. cols - 2 of the neighbourhood. */
  function WindowSum(img: Image, x: int, y: int, cols: nat, k: Component): (s: int)
    requires img.Wf() && Interior(img, x, y) && cols <= 3
    ensures 0 <= s <= 765 * cols
  {
    if cols == 0 then 0
    else WindowSum(img, x, y, cols - 1, k) + ColumnSum(img, x, y, cols - 2, 3, k)
  }

  /** Channel k summed over the 3x3 neighbourhood of (x, y), the pixel itself included. */
  function BoxSum(img: Image, x: int, y: int, k: Component): (s: int)
    requires img.Wf() && Interior(img, x, y)
    ensures 0 <= s <= 9 * 255
  {
    WindowSum(img, x, y, 3, k)
  }

  /** blur's per-pixel rule. */
  function BlurAt(img: Image, x: int, y: int): (c: Color)
    requires img.Wf() && img.InBounds(x, y)
    ensures !Interior(img, x, y) ==> c == img.At(x, y)
    ensures Interior(img, x, y) ==> forall k :: 9 * c.Get(k) <= BoxSum(img, x, y, k) < 9 * c.Get(k) + 9
  {
    if Interior(img, x, y) then
      Color(BoxSum(img, x, y, Red) / 9, BoxSum(img, x, y, Green) / 9, BoxSum(img, x, y, Blue) / 9)
    else
      img.At(x, y)
  }

  /**
   * Picture.blur: the same extent; border pixels unchanged; every interior channel the
   * truncated ninth of its neighbourhood total, read only from pixels inside the picture.
   */
  function Blur(img: Image): (r: Image)
    requires img.Wf()
    ensures r.Wf() && r.width == img.width && r.height == img.height
    ensures forall x, y :: img.InBounds(x, y) && !Interior(img, x, y) ==> r.At(x, y) == img.At(x, y)
    ensures forall x, y, k :: img.InBounds(x, y) && Interior(img, x, y) ==>
      9 * r.At(x, y).Get(k) <= BoxSum(img, x, y, k) < 9 * r.At(x, y).Get(k) + 9
  {
    Image(img.width, img.height,
      seq(img.width, x requires 0 <= x < img.width =>
        seq(img.height, y requires 0 <= y < img.height => BlurAt(img, x, y))))
  }

  /** Over a neighbourhood of one colour c, a partial column sums to `rows` copies of c's channel. */
  lemma {:induction false} UniformColumn(img: Image, x: int, y: int, dx: int, rows: nat, c: Color, k: Component)
    requires img.Wf() && Interior(img, x, y) && -1 <= dx <= 1 && rows <= 3
    requires forall i, j :: img.InBounds(i, j) ==> img.At(i, j) == c
    ensures ColumnSum(img, x, y, dx, rows, k) == rows * c.Get(k)
  {
    if rows > 0 {
      UniformColumn(img, x, y, dx, rows - 1, c, k);
      assert rows * c.Get(k) == (rows - 1) * c.Get(k) + c.Get(k);
    }
  }

  /** Over a neighbourhood of one colour c, `cols` whole columns sum to 3 * cols copies of c's channel. */
  lemma {:induction false} UniformWindow(img: Image, x: int, y: int, cols: nat, c: Color, k: Component)
    requires img.Wf() && Interior(img, x, y) && cols <= 3
    requires forall i, j :: img.InBounds(i, j) ==> img.At(i, j) == c
    ensures WindowSum(img, x, y, cols, k) == 3 * cols * c.Get(k)
  {
    if cols > 0 {
      UniformWindow(img, x, y, cols - 1, c, k);
      UniformColumn(img, x, y, cols - 2, 3, c, k);
      assert 3 * cols * c.Get(k) == 3 * (cols - 1) * c.Get(k) + 3 * c.Get(k);
    }
  }

  /** A picture of one colour is unchanged by blur. */
  lemma BlurUniform(w: nat, h: nat, c: Color)
    ensures Blur(Uniform(w, h, c)) == Uniform(w, h, c)
  {
    var img := Uniform(w, h, c);
    forall x, y | img.InBounds(x, y)
      ensures Blur(img).At(x, y) == c
    {
      if Interior(img, x, y) {
        UniformWindow(img, x, y, 3, c, Red);
        UniformWindow(img, x, y, 3, c, Green);
        UniformWindow(img, x, y, 3, c, Blue);
        QuotientOfMultiple(9, c.red);
        QuotientOfMultiple(9, c.green);
        QuotientOfMultiple(9, c.blue);
        assert Blur(img).At(x, y) == BlurAt(img, x, y);
      }
    }
    Ext(Blur(img), img);
  }

  /** A picture less than three pixels wide or high is all border, so blur returns it unchanged. */
  lemma BlurThin(img: Image)
    requires img.Wf() && (img.width < 3 || img.height < 3)
    ensures Blur(img) == img
  {
    Ext(Blur(img), img);
  }
}
