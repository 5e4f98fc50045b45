/** The photometric transforms: invert and grayscale, pixel by pixel. */
module Tones {
  import opened Colors
  import opened Images

  /** Picture.invert: the same extent, every pixel complemented. */
  function Invert(img: Image): (r: Image)
    requires img.Wf()
    ensures r.Wf() && r.width == img.width && r.height == img.height
    ensures forall x, y :: img.InBounds(x, y) ==> r.At(x, y) == img.At(x, y).Invert()
  {
    Image(img.width, img.height,
      seq(img.width, x requires 0 <= x < img.width =>
        seq(img.height, y requires 0 <= y < img.height => img.At(x, y).Invert())))
  }

  /** Inverting twice gives back the original picture. */
  lemma InvertInvolution(img: Image)
    requires img.Wf()
    ensures Invert(Invert(img)) == img
  {
    Ext(Invert(Invert(img)), img);
  }

  /** grayscale's per-pixel rule: all three channels become the truncated mean (b + g + r) / 3. */
  function Gray(c: Color): (g: Color)
    ensures g.red == g.green == g.blue
    ensures 3 * g.red <= c.red + c.green + c.blue < 3 * g.red + 3
  {
    var avg := (c.blue + c.green + c.red) / 3;
    Color(avg, avg, avg)
  }

  /** Picture.grayscale: the same extent, every pixel replaced by its gray. */
  function Grayscale(img: Image): (r: Image)
    requires img.Wf()
    ensures r.Wf() && r.width == img.width && r.height == img.height
    ensures forall x, y :: img.InBounds(x, y) ==> r.At(x, y) == Gray(img.At(x, y))
  {
    Image(img.width, img.height,
      seq(img.width, x requires 0 <= x < img.width =>
        seq(img.height, y requires 0 <= y < img.height => Gray(img.At(x, y)))))
  }

  /** A gray pixel is its own gray, so grayscale applied twice equals grayscale applied once. */
  lemma GrayscaleIdempotent(img: Image)
    requires img.Wf()
    ensures Grayscale(Grayscale(img)) == Grayscale(img)
  {
    var g := Grayscale(img);
    forall x, y | g.InBounds(x, y)
      ensures Grayscale(g).At(x, y) == g.At(x, y)
    {
      var c := g.At(x, y);
      assert c.red + c.green + c.blue == 3 * c.red;
    }
    Ext(Grayscale(g), g);
  }
}
