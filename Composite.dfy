/**
 * The multi-source transforms: blend (the per-channel mean of several pictures) and
 * mosaic (square tiles taken in turn from several pictures). Both work over the
 * common extent of their inputs, MinDims.
 */
module Composite {
  import opened JavaLang
  import opened Colors
  import opened Images
  import opened Arithmetic

  ghost predicate AllWf(imgs: seq<Image>)
  {
    forall i :: 0 <= i < |imgs| ==> imgs[i].Wf()
  }

  ghost predicate AllContain(imgs: seq<Image>, x: int, y: int)
  {
    forall i :: 0 <= i < |imgs| ==> imgs[i].Wf() && imgs[i].InBounds(x, y)
  }

  /** The running total blend accumulates: channel k of pixel (x, y), summed over the inputs in order. */
  function ChannelSum(imgs: seq<Image>, x: int, y: int, k: Component): (s: int)
    requires AllContain(imgs, x, y)
    ensures 0 <= s <= 255 * |imgs|
    decreases |imgs|
  {
    if imgs == [] then 0
    else ChannelSum(imgs[..|imgs| - 1], x, y, k) + imgs[|imgs| - 1].At(x, y).Get(k)
  }

  /** blend's per-pixel rule: each channel is the input total divided by the number of inputs, truncated. */
  function MeanColor(imgs: seq<Image>, x: int, y: int): Color
    requires |imgs| > 0 && AllContain(imgs, x, y)
  {
    var n := |imgs|;
    var r, g, b := ChannelSum(imgs, x, y, Red), ChannelSum(imgs, x, y, Green), ChannelSum(imgs, x, y, Blue);
    QuotientBounds(r, n, 255);
    QuotientBounds(g, n, 255);
    QuotientBounds(b, n, 255);
    Color(r / n, g / n, b / n)
  }

  /** The w x h table of MeanColor, stated pointwise only, for use as a loop target. */
  lemma MeanTable(imgs: seq<Image>, w: nat, h: nat) returns (t: seq<seq<Color>>)
    requires |imgs| > 0 && forall x, y :: 0 <= x < w && 0 <= y < h ==> AllContain(imgs, x, y)
    ensures |t| == w && forall x :: 0 <= x < w ==> |t[x]| == h
    ensures forall x, y {:trigger MeanColor(imgs, x, y)} :: 0 <= x < w && 0 <= y < h ==> t[x][y] == MeanColor(imgs, x, y)
  {
    t := seq(w, x requires 0 <= x < w => seq(h, y requires 0 <= y < h => MeanColor(imgs, x, y)));
  }

  /** A picture of the minimum extent holding MeanColor at every pixel is the blend. */
  lemma BlendOfMeans(imgs: seq<Image>, img: Image)
    requires AllWf(imgs) && |imgs| > 0
    requires img.Wf() && (img.width, img.height) == MinDims(imgs)
    requires forall x, y :: img.InBounds(x, y) ==> AllContain(imgs, x, y) && img.At(x, y) == MeanColor(imgs, x, y)
    ensures Blend(imgs) == Ok(img)
  {
    var b := Blend(imgs).value;
    forall x, y | img.InBounds(x, y)
      ensures b.At(x, y) == img.At(x, y)
    {
      assert b.At(x, y) == MeanColor(imgs, x, y);
    }
    Ext(b, img);
  }

  /** Each channel of MeanColor is the truncated mean: n * m <= total < n * (m + 1). */
  lemma MeanColorIsMean(imgs: seq<Image>, x: int, y: int)
    requires |imgs| > 0 && AllContain(imgs, x, y)
    ensures forall k :: |imgs| * MeanColor(imgs, x, y).Get(k) <= ChannelSum(imgs, x, y, k) < |imgs| * (MeanColor(imgs, x, y).Get(k) + 1)
  {
    var n := |imgs|;
    forall k
      ensures n * MeanColor(imgs, x, y).Get(k) <= ChannelSum(imgs, x, y, k) < n * (MeanColor(imgs, x, y).Get(k) + 1)
    {
      QuotientBounds(ChannelSum(imgs, x, y, k), n, 255);
    }
  }

  /**
   * Picture.blend: an empty list throws (List.get(0) in getMinimumDimensions); otherwise a
   * picture of the minimum width and minimum height whose pixels are the MeanColor of the
   * inputs there. No input is read outside its own bounds.
   */
  function Blend(imgs: seq<Image>): (r: Result<Image>)
    requires AllWf(imgs)
    ensures r.Err? <==> |imgs| == 0
    ensures r.Err? ==> r.error == IndexOutOfBounds
    ensures r.Ok? ==>
      r.value.Wf() && (r.value.width, r.value.height) == MinDims(imgs) &&
      (forall x, y :: r.value.InBounds(x, y) ==> AllContain(imgs, x, y)) &&
      (forall x, y {:trigger MeanColor(imgs, x, y)} :: r.value.InBounds(x, y) ==> r.value.At(x, y) == MeanColor(imgs, x, y))
  {
    if |imgs| == 0 then Err(IndexOutOfBounds)
    else
      var (w, h) := MinDims(imgs);
      Ok(Image(w, h,
        seq(w, x requires 0 <= x < w =>
          seq(h, y requires 0 <= y < h => MeanColor(imgs, x, y)))))
  }

  /** Every channel of every blended pixel is the truncated mean of that channel over the inputs. */
  lemma BlendIsMean(imgs: seq<Image>)
    requires AllWf(imgs) && |imgs| > 0
    ensures forall x, y, k :: Blend(imgs).value.InBounds(x, y) ==>
      |imgs| * Blend(imgs).value.At(x, y).Get(k) <= ChannelSum(imgs, x, y, k) < |imgs| * (Blend(imgs).value.At(x, y).Get(k) + 1)
  {
    forall x, y | Blend(imgs).value.InBounds(x, y)
      ensures forall k :: |imgs| * Blend(imgs).value.At(x, y).Get(k) <= ChannelSum(imgs, x, y, k) < |imgs| * (Blend(imgs).value.At(x, y).Get(k) + 1)
    {
      MeanColorIsMean(imgs, x, y);
    }
  }

  /** Summing the same colour n times gives n times that channel. */
  lemma {:induction false} ChannelSumOfCopies(imgs: seq<Image>, x: int, y: int, k: Component, c: Color)
    requires AllContain(imgs, x, y)
    requires forall i :: 0 <= i < |imgs| ==> imgs[i].At(x, y) == c
    ensures ChannelSum(imgs, x, y, k) == |imgs| * c.Get(k)
    decreases |imgs|
  {
    if imgs != [] {
      var front := imgs[..|imgs| - 1];
      assert forall i :: 0 <= i < |front| ==> front[i] == imgs[i];
      ChannelSumOfCopies(front, x, y, k, c);
    }
  }

  /** Blending any number of copies of one picture gives that picture. */
  lemma BlendCopies(imgs: seq<Image>, img: Image)
    requires img.Wf() && |imgs| > 0
    requires forall i :: 0 <= i < |imgs| ==> imgs[i] == img
    ensures Blend(imgs) == Ok(img)
  {
    var r := Blend(imgs).value;
    var n := |imgs|;
    assert imgs[0] == img;
    forall x, y | r.InBounds(x, y)
      ensures r.At(x, y) == img.At(x, y)
    {
      var c := img.At(x, y);
      ChannelSumOfCopies(imgs, x, y, Red, c);
      ChannelSumOfCopies(imgs, x, y, Green, c);
      ChannelSumOfCopies(imgs, x, y, Blue, c);
      QuotientOfMultiple(n, c.red);
      QuotientOfMultiple(n, c.green);
      QuotientOfMultiple(n, c.blue);
      assert r.At(x, y) == MeanColor(imgs, x, y);
    }
    Ext(r, img);
  }

  /** Blending a single picture returns that picture. */
  lemma BlendSingle(img: Image)
    requires img.Wf()
    ensures Blend([img]) == Ok(img)
  {
    BlendCopies([img], img);
  }

  /** Blending two uniform pictures of one size gives the uniform picture of the channel-wise truncated means. */
  lemma BlendTwoUniform(w: nat, h: nat, a: Color, b: Color)
    ensures Blend([Uniform(w, h, a), Uniform(w, h, b)]) ==
      Ok(Uniform(w, h, Color((a.red + b.red) / 2, (a.green + b.green) / 2, (a.blue + b.blue) / 2)))
  {
    var imgs := [Uniform(w, h, a), Uniform(w, h, b)];
    var m := Color((a.red + b.red) / 2, (a.green + b.green) / 2, (a.blue + b.blue) / 2);
    var r := Blend(imgs).value;
    forall x, y | r.InBounds(x, y)
      ensures r.At(x, y) == m
    {
      assert imgs[..1][..0] == [];
      forall k
        ensures ChannelSum(imgs, x, y, k) == a.Get(k) + b.Get(k)
      {
        assert ChannelSum(imgs[..1], x, y, k) == a.Get(k);
      }
      assert r.At(x, y).Get(Red) == m.red;
      assert r.At(x, y).Get(Green) == m.green;
      assert r.At(x, y).Get(Blue) == m.blue;
    }
    Ext(r, Uniform(w, h, m));
  }

  /** Black blended with white is (127, 127, 127): the mean 127.5 is truncated. */
  lemma BlendBlackWhite(w: nat, h: nat)
    ensures Blend([Uniform(w, h, Black), Uniform(w, h, Color(255, 255, 255))]) ==
      Ok(Uniform(w, h, Color(127, 127, 127)))
  {
    BlendTwoUniform(w, h, Black, Color(255, 255, 255));
  }

  /** (10, 20, 30) blended with (20, 30, 40) is (15, 25, 35) everywhere. */
  lemma BlendExample(w: nat, h: nat)
    ensures Blend([Uniform(w, h, Color(10, 20, 30)), Uniform(w, h, Color(20, 30, 40))]) ==
      Ok(Uniform(w, h, Color(15, 25, 35)))
  {
    BlendTwoUniform(w, h, Color(10, 20, 30), Color(20, 30, 40));
  }

  /** mosaic's choice of input for pixel (x, y): (x / tileSize + y / tileSize) % n in Java arithmetic. */
  function TileIndex(x: int, y: int, tileSize: int, n: int): (i: int)
    requires tileSize != 0 && n > 0
    ensures i < n
    ensures 0 <= x && 0 <= y && 0 < tileSize ==> i == (x / tileSize + y / tileSize) % n
  {
    var s := Div(x, tileSize) + Div(y, tileSize);
    assert 0 <= x && 0 <= y && 0 < tileSize ==> 0 <= s && s == x / tileSize + y / tileSize;
    Rem(s, n)
  }

  /**
   * c is what mosaic copies to (x, y): the index there is valid and input TileIndex(x, y)
   * has colour c at (x, y).
   */
  ghost predicate TiledAt(imgs: seq<Image>, tileSize: int, x: int, y: int, c: Color)
  {
    tileSize != 0 && |imgs| > 0 &&
    var k := TileIndex(x, y, tileSize, |imgs|);
    0 <= k && imgs[k].Wf() && imgs[k].InBounds(x, y) && imgs[k].At(x, y) == c
  }

  /** Java's `m - m % tileSize` for m >= 0: m cut down to a multiple of the tile size. */
  function CropToTiles(m: nat, tileSize: int): (c: nat)
    requires tileSize != 0
    ensures c <= m < c + Abs(tileSize)
    ensures c % Abs(tileSize) == 0
    ensures c == 0 <==> m < Abs(tileSize)
  {
    RoundDown(m, Abs(tileSize));
    m - Rem(m, tileSize)
  }

  /**
   * Picture.mosaic. An empty list throws in getMinimumDimensions and a zero tile size
   * throws at `% tileSize`. The output covers the minimum extent cut down to whole tiles;
   * when that leaves no whole tile across or down, the output picture cannot be created.
   * Otherwise pixel (x, y) is input TileIndex(x, y)'s pixel (x, y); a negative tile size
   * makes some of those indices negative, and the first such List.get throws.
   */
  function Mosaic(imgs: seq<Image>, tileSize: int): (r: Result<Image>)
    requires AllWf(imgs)
    ensures |imgs| == 0 ==> r == Err(IndexOutOfBounds)
    ensures |imgs| > 0 && tileSize == 0 ==> r == Err(DivisionByZero)
    ensures |imgs| > 0 && tileSize > 0 ==>
      (r.Ok? <==> tileSize <= MinDims(imgs).0 && tileSize <= MinDims(imgs).1) &&
      (r.Err? ==> r.error == IllegalArgument)
    ensures |imgs| > 0 && tileSize > 0 && r.Ok? ==>
      r.value.Wf() &&
      var (mw, mh) := MinDims(imgs);
      r.value.width % tileSize == 0 && r.value.width <= mw < r.value.width + tileSize &&
      r.value.height % tileSize == 0 && r.value.height <= mh < r.value.height + tileSize &&
      forall x, y :: r.value.InBounds(x, y) ==>
        var i := (x / tileSize + y / tileSize) % |imgs|;
        imgs[i].InBounds(x, y) && r.value.At(x, y) == imgs[i].At(x, y)
  {
    if |imgs| == 0 then Err(IndexOutOfBounds)
    else if tileSize == 0 then Err(DivisionByZero)
    else
      var w, h := CropToTiles(MinDims(imgs).0, tileSize), CropToTiles(MinDims(imgs).1, tileSize);
      if w == 0 || h == 0 then Err(IllegalArgument)
      else if NegativeTile(w, h, tileSize, |imgs|) then Err(IndexOutOfBounds)
      else
        var t := Tiles(imgs, tileSize, w, h);
        TiledFormula(imgs, tileSize, t);
        Ok(t)
  }

  /** For a positive tile size, TiledAt is the formula (x / tileSize + y / tileSize) % n. */
  lemma TiledFormula(imgs: seq<Image>, tileSize: int, img: Image)
    requires AllWf(imgs) && |imgs| > 0 && tileSize != 0 && img.Wf()
    requires forall x, y :: img.InBounds(x, y) ==> TiledAt(imgs, tileSize, x, y, img.At(x, y))
    ensures tileSize > 0 ==> forall x, y :: img.InBounds(x, y) ==>
      var i := (x / tileSize + y / tileSize) % |imgs|;
      imgs[i].InBounds(x, y) && img.At(x, y) == imgs[i].At(x, y)
  {
    forall x, y | tileSize > 0 && img.InBounds(x, y)
      ensures var i := (x / tileSize + y / tileSize) % |imgs|;
        imgs[i].InBounds(x, y) && img.At(x, y) == imgs[i].At(x, y)
    {
      assert TiledAt(imgs, tileSize, x, y, img.At(x, y));
    }
  }

  /** Some pixel of a w x h output picks a negative input index. */
  predicate NegativeTile(w: nat, h: nat, tileSize: int, n: int)
    requires tileSize != 0 && n > 0
  {
    exists x, y :: 0 <= x < w && 0 <= y < h && TileIndex(x, y, tileSize, n) < 0
  }

  /** The w x h mosaic picture once every index is known to be valid. */
  function Tiles(imgs: seq<Image>, tileSize: int, w: nat, h: nat): (r: Image)
    requires AllWf(imgs) && |imgs| > 0 && tileSize != 0
    requires w <= MinDims(imgs).0 && h <= MinDims(imgs).1
    requires !NegativeTile(w, h, tileSize, |imgs|)
    ensures r.Wf() && r.width == w && r.height == h
    ensures forall x, y :: r.InBounds(x, y) ==> TiledAt(imgs, tileSize, x, y, r.At(x, y))
  {
    Image(w, h,
      seq(w, x requires 0 <= x < w =>
        seq(h, y requires 0 <= y < h => imgs[TileIndex(x, y, tileSize, |imgs|)].At(x, y))))
  }

  /** A picture every pixel of which is what mosaic copies there has no negative index in its extent. */
  lemma NoNegativeTile(imgs: seq<Image>, tileSize: int, img: Image)
    requires |imgs| > 0 && tileSize != 0 && img.Wf()
    requires forall x, y :: img.InBounds(x, y) ==> TiledAt(imgs, tileSize, x, y, img.At(x, y))
    ensures !NegativeTile(img.width, img.height, tileSize, |imgs|)
  {
    forall x, y | 0 <= x < img.width && 0 <= y < img.height
      ensures TileIndex(x, y, tileSize, |imgs|) >= 0
    {
      assert img.InBounds(x, y);
    }
  }

  /**
   * A picture every pixel of which is what mosaic copies there is the tiled picture of
   * its extent.
   */
  lemma TilesOf(imgs: seq<Image>, tileSize: int, img: Image)
    requires AllWf(imgs) && |imgs| > 0 && tileSize != 0
    requires img.Wf() && img.width <= MinDims(imgs).0 && img.height <= MinDims(imgs).1
    requires forall x, y :: img.InBounds(x, y) ==> TiledAt(imgs, tileSize, x, y, img.At(x, y))
    ensures !NegativeTile(img.width, img.height, tileSize, |imgs|)
    ensures Tiles(imgs, tileSize, img.width, img.height) == img
  {
    NoNegativeTile(imgs, tileSize, img);
    var t := Tiles(imgs, tileSize, img.width, img.height);
    forall x, y | img.InBounds(x, y)
      ensures t.At(x, y) == img.At(x, y)
    {
      assert TiledAt(imgs, tileSize, x, y, img.At(x, y)) && TiledAt(imgs, tileSize, x, y, t.At(x, y));
    }
    Ext(t, img);
  }

  /**
   * A picture of the cropped minimum extent whose every pixel has a valid index and is
   * that input's pixel there is the mosaic.
   */
  lemma MosaicOfTiles(imgs: seq<Image>, tileSize: int, img: Image)
    requires AllWf(imgs) && |imgs| > 0 && tileSize != 0
    requires img.Wf() && img.width == CropToTiles(MinDims(imgs).0, tileSize)
    requires img.height == CropToTiles(MinDims(imgs).1, tileSize)
    requires img.width > 0 && img.height > 0
    requires forall x, y :: img.InBounds(x, y) ==> TiledAt(imgs, tileSize, x, y, img.At(x, y))
    ensures Mosaic(imgs, tileSize) == Ok(img)
  {
    TilesOf(imgs, tileSize, img);
  }

  /** A single non-empty input whose sides are whole numbers of tiles comes back unchanged. */
  lemma MosaicSingle(img: Image, tileSize: int)
    requires img.Wf() && img.width > 0 && img.height > 0 && tileSize > 0
    requires img.width % tileSize == 0 && img.height % tileSize == 0
    ensures Mosaic([img], tileSize) == Ok(img)
  {
    var r := Mosaic([img], tileSize).value;
    assert MinDims([img]) == (img.width, img.height);
    Ext(r, img);
  }

  /**
   * With a negative tile size a single input at least one tile across and down still
   * succeeds: the index modulo 1 is always 0.
   */
  lemma MosaicNegativeTileSizeSingle(img: Image, tileSize: int)
    requires img.Wf() && tileSize < 0 && img.width >= -tileSize && img.height >= -tileSize
    ensures Mosaic([img], tileSize).Ok?
  {
    var w, h := CropToTiles(MinDims([img]).0, tileSize), CropToTiles(MinDims([img]).1, tileSize);
    forall x, y | 0 <= x < w && 0 <= y < h
      ensures TileIndex(x, y, tileSize, 1) >= 0
    {
      var i := TileIndex(x, y, tileSize, 1);
      assert Abs(i) < 1;
    }
  }

  /** With a negative tile size the first pixel of the second tile column maps to index -1. */
  lemma NegativeTileWitness(tileSize: int, n: int)
    requires tileSize < 0 && n >= 2
    ensures TileIndex(-tileSize, 0, tileSize, n) == -1
  {
    var t := -tileSize;
    QuotientOfMultiple(t, 1);
    QuotientOfMultiple(t, 0);
    assert Div(t, tileSize) == -1;
    assert Div(0, tileSize) == 0;
    ModSmall(1, n);
  }

  /** A negative index anywhere in the output makes mosaic throw. */
  lemma MosaicThrowsOnNegativeTile(imgs: seq<Image>, tileSize: int)
    requires AllWf(imgs) && |imgs| > 0 && tileSize != 0
    requires NegativeTile(CropToTiles(MinDims(imgs).0, tileSize), CropToTiles(MinDims(imgs).1, tileSize), tileSize, |imgs|)
    ensures Mosaic(imgs, tileSize) == Err(IndexOutOfBounds)
  {
  }

  /**
   * With a negative tile size, two or more inputs and a common extent of at least two tiles
   * across and one tile down, the pixel (-tileSize, 0) gets index -1 and mosaic throws.
   */
  lemma MosaicNegativeTileSizeThrows(imgs: seq<Image>, tileSize: int)
    requires AllWf(imgs) && |imgs| >= 2 && tileSize < 0
    requires MinDims(imgs).0 >= -2 * tileSize && MinDims(imgs).1 >= -tileSize
    ensures Mosaic(imgs, tileSize) == Err(IndexOutOfBounds)
  {
    var w, h := CropToTiles(MinDims(imgs).0, tileSize), CropToTiles(MinDims(imgs).1, tileSize);
    assert h > 0 && w > -tileSize;
    NegativeTileWitness(tileSize, |imgs|);
    MosaicThrowsOnNegativeTile(imgs, tileSize);
  }
}
