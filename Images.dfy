/**
 * The value a picture holds: its width, its height and its pixels. Transforms are
 * specified on these values; the Picture class is proved to compute them.
 */
module Images {
  import opened Colors

  /** A width x height raster, column-major: cols[x][y] is the pixel at (x, y). */
  datatype Image = Image(width: nat, height: nat, cols: seq<seq<Color>>) {

    ghost predicate Wf()
    {
      |cols| == width && forall x :: 0 <= x < width ==> |cols[x]| == height
    }

    predicate InBounds(x: int, y: int)
    {
      0 <= x < width && 0 <= y < height
    }

    function At(x: int, y: int): Color
      requires Wf() && InBounds(x, y)
    {
      cols[x][y]
    }
  }

  /** Every pixel of a width x height raster has colour c. */
  function Uniform(width: nat, height: nat, c: Color): (r: Image)
    ensures r.Wf() && r.width == width && r.height == height
    ensures forall x, y :: r.InBounds(x, y) ==> r.At(x, y) == c
  {
    Image(width, height, seq(width, x => seq(height, y => c)))
  }

  /** A new blank picture is all black. */
  function Blank(width: nat, height: nat): Image
  {
    Uniform(width, height, Black)
  }

  /** Two rasters with the same extent and the same pixels are the same value. */
  lemma Ext(a: Image, b: Image)
    requires a.Wf() && b.Wf() && a.width == b.width && a.height == b.height
    requires forall x, y :: a.InBounds(x, y) ==> a.At(x, y) == b.At(x, y)
    ensures a == b
  {
    forall x | 0 <= x < a.width
      ensures a.cols[x] == b.cols[x]
    {
      forall y | 0 <= y < a.height
        ensures a.cols[x][y] == b.cols[x][y]
      {
        assert a.At(x, y) == b.At(x, y);
      }
    }
  }

  /**
   * Picture equality: rasters of different width or height are never equal, and with
   * the same extent they are equal exactly when every pixel matches.
   */
  lemma EqualIff(a: Image, b: Image)
    requires a.Wf() && b.Wf()
    ensures a == b <==>
      a.width == b.width && a.height == b.height &&
      forall x, y :: a.InBounds(x, y) ==> a.At(x, y) == b.At(x, y)
  {
    if a.width == b.width && a.height == b.height &&
       forall x, y :: a.InBounds(x, y) ==> a.At(x, y) == b.At(x, y)
    {
      Ext(a, b);
    }
  }

  /**
   * getMinimumDimensions: the smallest width and the smallest height over a non-empty
   * list, folded from the first picture onwards.
   */
  function MinDims(imgs: seq<Image>): (d: (nat, nat))
    requires |imgs| > 0
    ensures forall i :: 0 <= i < |imgs| ==> d.0 <= imgs[i].width && d.1 <= imgs[i].height
    ensures exists i :: 0 <= i < |imgs| && d.0 == imgs[i].width
    ensures exists i :: 0 <= i < |imgs| && d.1 == imgs[i].height
    decreases |imgs|
  {
    if |imgs| == 1 then (imgs[0].width, imgs[0].height)
    else
      var front := imgs[..|imgs| - 1];
      var d := MinDims(front);
      var last := imgs[|imgs| - 1];
      assert forall i :: 0 <= i < |front| ==> front[i] == imgs[i];
      (if last.width < d.0 then last.width else d.0,
       if last.height < d.1 then last.height else d.1)
  }

  /** A lower bound on every width and every height that some picture attains is MinDims. */
  lemma MinDimsIsLeast(imgs: seq<Image>, w: nat, h: nat)
    requires |imgs| > 0
    requires forall i :: 0 <= i < |imgs| ==> w <= imgs[i].width && h <= imgs[i].height
    requires exists i :: 0 <= i < |imgs| && w == imgs[i].width
    requires exists i :: 0 <= i < |imgs| && h == imgs[i].height
    ensures MinDims(imgs) == (w, h)
  {
    var d := MinDims(imgs);
    var i :| 0 <= i < |imgs| && w == imgs[i].width;
    var j :| 0 <= j < |imgs| && d.0 == imgs[j].width;
    assert d.0 <= imgs[i].width && w <= imgs[j].width;
    var k :| 0 <= k < |imgs| && h == imgs[k].height;
    var l :| 0 <= l < |imgs| && d.1 == imgs[l].height;
    assert d.1 <= imgs[k].height && h <= imgs[l].height;
    assert d.0 == w && d.1 == h;
  }
}
