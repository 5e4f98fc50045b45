/**
 * The Picture class: a mutable raster of RGB colours with bounds-checked pixel
 * access, structural equality and hash, and the transforms, each of which builds a new
 * picture pixel by pixel and leaves its inputs alone.
 */
module Pictures {
  import opened JavaLang
  import opened Colors
  import opened Images
  import Tones
  import Geometry
  import Composite
  import Filters
  import Hashing

  class Picture {
    /**
     * The BufferedImage raster, one colour per cell.  The packed integer getRGB(x, y)
     * returns is Pack(store[x, y]); the colour round-trips through that encoding.
     */
    const store: array2<Color>

    /** The picture as a value. */
    ghost function Contents(): (img: Image)
      reads store
      ensures img.Wf() && img.width == Width() && img.height == Height()
      ensures forall x, y :: img.InBounds(x, y) ==> img.At(x, y) == GetPixel(x, y)
    {
      Image(Width(), Height(),
        seq(Width(), x requires 0 <= x < Width() reads store =>
          seq(Height(), y requires 0 <= y < Height() reads store => store[x, y])))
    }

    /** Picture(width, height): a new blank picture, every pixel black. */
    constructor (width: nat, height: nat)
      ensures fresh(store)
      ensures Contents() == Blank(width, height)
    {
      store := new Color[width, height]((x, y) => Black);
      new;
      Ext(Contents(), Blank(width, height));
    }

    function Width(): nat
    {
      store.Length0
    }

    function Height(): nat
    {
      store.Length1
    }

    /** The point (x, y) lies within the picture. */
    predicate Contains(x: int, y: int)
    {
      x >= 0 && y >= 0 && x < Width() && y < Height()
    }

    /** getPixel: the colour at (x, y). */
    function GetPixel(x: int, y: int): Color
      reads store
      requires Contains(x, y)
    {
      store[x, y]
    }

    /**
     * setPixel: (x, y) reads back the colour written, through its packed encoding;
     * every other pixel stays as it was.
     */
    method SetPixel(x: int, y: int, rgb: Color)
      requires Contains(x, y)
      modifies store
      ensures GetPixel(x, y) == rgb
      ensures forall i, j :: Contains(i, j) && (i != x || j != y) ==> GetPixel(i, j) == old(GetPixel(i, j))
    {
      UnpackPack(rgb);
      store[x, y] := Unpack(Pack(rgb));
    }

    /**
     * equals: false for null and for a different width or height, otherwise true
     * exactly when every packed pixel matches.
     */
    method Equals(other: Picture?) returns (eq: bool)
      ensures eq <==> other != null && Contents() == other.Contents()
    {
      if other == null {
        return false;
      }
      if Width() != other.Width() || Height() != other.Height() {
        return false;
      }
      for i := 0 to Width()
        invariant forall a, b :: 0 <= a < i && 0 <= b < Height() ==> store[a, b] == other.store[a, b]
      {
        for j := 0 to Height()
          invariant forall a, b :: 0 <= a < i && 0 <= b < Height() ==> store[a, b] == other.store[a, b]
          invariant forall b :: 0 <= b < j ==> store[i, b] == other.store[i, b]
        {
          PackInjective(store[i, j], other.store[i, j]);
          if Pack(store[i, j]) != Pack(other.store[i, j]) {
            assert Contents().At(i, j) != other.Contents().At(i, j);
            return false;
          }
        }
      }
      Ext(Contents(), other.Contents());
      return true;
    }

    /** hashCode: h = 31 * h + getRGB(i, j) over the columns left to right, each top to bottom. */
    method HashCode() returns (hashCode: int32)
      ensures hashCode == Hashing.Hash(Contents())
    {
      ghost var cols := Contents().cols;
      hashCode := 0;
      for i := 0 to Width()
        invariant hashCode == Hashing.HashColumns(cols[..i])
      {
        for j := 0 to Height()
          invariant hashCode == Hashing.HashColumn(Hashing.HashColumns(cols[..i]), cols[i][..j])
        {
          assert cols[i][..j + 1][..j] == cols[i][..j];
          hashCode := Wrap(31 * hashCode + Pack(store[i, j]));
        }
        assert cols[i][..Height()] == cols[i];
        assert cols[..i + 1][..i] == cols[..i];
      }
      assert cols[..Width()] == cols;
    }

    /** invert: a new picture of the same size with every pixel complemented. */
    method Invert() returns (out: Picture)
      ensures fresh(out.store)
      ensures out.Contents() == Tones.Invert(Contents())
    {
      out := new Picture(Width(), Height());
      for x := 0 to Width()
        invariant fresh(out.store) && out.Width() == Width() && out.Height() == Height()
        invariant forall i, j :: 0 <= i < x && 0 <= j < Height() ==> out.GetPixel(i, j) == GetPixel(i, j).Invert()
      {
        for y := 0 to Height()
          invariant forall i, j :: 0 <= i < x && 0 <= j < Height() ==> out.GetPixel(i, j) == GetPixel(i, j).Invert()
          invariant forall j :: 0 <= j < y ==> out.GetPixel(x, j) == GetPixel(x, j).Invert()
        {
          var pixel := GetPixel(x, y);
          out.SetPixel(x, y, pixel.Invert());
        }
      }
      InvertFilled(this, out);
    }

    /** grayscale: a new picture of the same size with every pixel replaced by its gray. */
    method Grayscale() returns (out: Picture)
      ensures fresh(out.store)
      ensures out.Contents() == Tones.Grayscale(Contents())
    {
      out := new Picture(Width(), Height());
      for x := 0 to Width()
        invariant fresh(out.store) && out.Width() == Width() && out.Height() == Height()
        invariant forall i, j :: 0 <= i < x && 0 <= j < Height() ==> out.GetPixel(i, j) == Tones.Gray(GetPixel(i, j))
      {
        for y := 0 to Height()
          invariant forall i, j :: 0 <= i < x && 0 <= j < Height() ==> out.GetPixel(i, j) == Tones.Gray(GetPixel(i, j))
          invariant forall j :: 0 <= j < y ==> out.GetPixel(x, j) == Tones.Gray(GetPixel(x, j))
        {
          var pixel := GetPixel(x, y);
          var avg := (pixel.blue + pixel.green + pixel.red) / 3;
          out.SetPixel(x, y, Color(avg, avg, avg));
        }
      }
      GrayscaleFilled(this, out);
    }

    /** rotate90: a new height x width picture; pixel (x, y) is written to (height - y - 1, x). */
    method Rotate90() returns (out: Picture)
      ensures fresh(out.store)
      ensures out.Contents() == Geometry.Rotate90(Contents())
    {
      out := new Picture(Height(), Width());
      for x := 0 to Width()
        invariant fresh(out.store) && out.Width() == Height() && out.Height() == Width()
        invariant forall i, j :: 0 <= i < x && 0 <= j < Height() ==> out.GetPixel(Height() - j - 1, i) == GetPixel(i, j)
      {
        for y := 0 to Height()
          invariant forall i, j :: 0 <= i < x && 0 <= j < Height() ==> out.GetPixel(Height() - j - 1, i) == GetPixel(i, j)
          invariant forall j :: 0 <= j < y ==> out.GetPixel(Height() - j - 1, x) == GetPixel(x, j)
        {
          out.SetPixel(Height() - y - 1, x, GetPixel(x, y));
        }
      }
      Rotate90Filled(this, out);
    }

    /** rotate180: a new picture of the same size; pixel (x, y) is read from (width - x - 1, height - y - 1). */
    method Rotate180() returns (out: Picture)
      ensures fresh(out.store)
      ensures out.Contents() == Geometry.Rotate180(Contents())
    {
      out := new Picture(Width(), Height());
      for x := 0 to Width()
        invariant fresh(out.store) && out.Width() == Width() && out.Height() == Height()
        invariant forall i, j :: 0 <= i < x && 0 <= j < Height() ==> out.GetPixel(i, j) == GetPixel(Width() - i - 1, Height() - j - 1)
      {
        for y := 0 to Height()
          invariant forall i, j :: 0 <= i < x && 0 <= j < Height() ==> out.GetPixel(i, j) == GetPixel(Width() - i - 1, Height() - j - 1)
          invariant forall j :: 0 <= j < y ==> out.GetPixel(x, j) == GetPixel(Width() - x - 1, Height() - j - 1)
        {
          out.SetPixel(x, y, GetPixel(Width() - x - 1, Height() - y - 1));
        }
      }
      Rotate180Filled(this, out);
    }

    /** rotate270: a new height x width picture; pixel (x, y) is written to (y, width - x - 1). */
    method Rotate270() returns (out: Picture)
      ensures fresh(out.store)
      ensures out.Contents() == Geometry.Rotate270(Contents())
    {
      out := new Picture(Height(), Width());
      for x := 0 to Width()
        invariant fresh(out.store) && out.Width() == Height() && out.Height() == Width()
        invariant forall i, j :: 0 <= i < x && 0 <= j < Height() ==> out.GetPixel(j, Width() - i - 1) == GetPixel(i, j)
      {
        for y := 0 to Height()
          invariant forall i, j :: 0 <= i < x && 0 <= j < Height() ==> out.GetPixel(j, Width() - i - 1) == GetPixel(i, j)
          invariant forall j :: 0 <= j < y ==> out.GetPixel(j, Width() - x - 1) == GetPixel(x, j)
        {
          out.SetPixel(y, Width() - x - 1, GetPixel(x, y));
        }
      }
      Rotate270Filled(this, out);
    }

    /** flipHorizontal: a new picture of the same size; pixel (x, y) is read from (width - x - 1, y). */
    method FlipHorizontal() returns (out: Picture)
      ensures fresh(out.store)
      ensures out.Contents() == Geometry.FlipHorizontal(Contents())
    {
      out := new Picture(Width(), Height());
      for x := 0 to Width()
        invariant fresh(out.store) && out.Width() == Width() && out.Height() == Height()
        invariant forall i, j :: 0 <= i < x && 0 <= j < Height() ==> out.GetPixel(i, j) == GetPixel(Width() - i - 1, j)
      {
        for y := 0 to Height()
          invariant forall i, j :: 0 <= i < x && 0 <= j < Height() ==> out.GetPixel(i, j) == GetPixel(Width() - i - 1, j)
          invariant forall j :: 0 <= j < y ==> out.GetPixel(x, j) == GetPixel(Width() - x - 1, j)
        {
          out.SetPixel(x, y, GetPixel(Width() - x - 1, y));
        }
      }
      FlipHorizontalFilled(this, out);
    }

    /** flipVertical: a new picture of the same size; pixel (x, y) is read from (x, height - y - 1). */
    method FlipVertical() returns (out: Picture)
      ensures fresh(out.store)
      ensures out.Contents() == Geometry.FlipVertical(Contents())
    {
      out := new Picture(Width(), Height());
      for x := 0 to Width()
        invariant fresh(out.store) && out.Width() == Width() && out.Height() == Height()
        invariant forall i, j :: 0 <= i < x && 0 <= j < Height() ==> out.GetPixel(i, j) == GetPixel(i, Height() - j - 1)
      {
        for y := 0 to Height()
          invariant forall i, j :: 0 <= i < x && 0 <= j < Height() ==> out.GetPixel(i, j) == GetPixel(i, Height() - j - 1)
          invariant forall j :: 0 <= j < y ==> out.GetPixel(x, j) == GetPixel(x, Height() - j - 1)
        {
          out.SetPixel(x, y, GetPixel(x, Height() - y - 1));
        }
      }
      FlipVerticalFilled(this, out);
    }

    /**
     * blur: a new picture of the same size; each interior pixel gets the truncated ninth
     * of its 3x3 neighbourhood total per channel, each border pixel is copied.
     */
    method Blur() returns (out: Picture)
      ensures fresh(out.store)
      ensures out.Contents() == Filters.Blur(Contents())
    {
      ghost var src := Contents();
      out := new Picture(Width(), Height());
      for x := 0 to Width()
        invariant fresh(out.store) && out.Width() == Width() && out.Height() == Height()
        invariant forall i, j :: 0 <= i < x && 0 <= j < Height() ==> out.GetPixel(i, j) == Filters.BlurAt(src, i, j)
      {
        for y := 0 to Height()
          invariant forall i, j :: 0 <= i < x && 0 <= j < Height() ==> out.GetPixel(i, j) == Filters.BlurAt(src, i, j)
          invariant forall j :: 0 <= j < y ==> out.GetPixel(x, j) == Filters.BlurAt(src, x, j)
        {
          var pixel := BlurPixel(x, y);
          out.SetPixel(x, y, pixel);
        }
      }
      BlurFilled(this, out);
    }

    /**
     * blur's loop body: an interior pixel totals its 3x3 neighbourhood per channel and
     * divides by 9; a border pixel is kept.
     */
    method BlurPixel(x: int, y: int) returns (c: Color)
      requires Contains(x, y)
      ensures c == Filters.BlurAt(Contents(), x, y)
    {
      if x > 0 && x < Width() - 1 && y > 0 && y < Height() - 1 {
        var totalRed, totalGreen, totalBlue := NeighbourhoodTotals(x, y);
        c := Color(totalRed / 9, totalGreen / 9, totalBlue / 9);
      } else {
        c := GetPixel(x, y);
      }
    }

    /** blur's dx, dy loops: the channel totals over the 3x3 neighbourhood of an interior pixel. */
    method NeighbourhoodTotals(x: int, y: int) returns (totalRed: int, totalGreen: int, totalBlue: int)
      requires Filters.Interior(Contents(), x, y)
      ensures totalRed == Filters.BoxSum(Contents(), x, y, Red)
      ensures totalGreen == Filters.BoxSum(Contents(), x, y, Green)
      ensures totalBlue == Filters.BoxSum(Contents(), x, y, Blue)
    {
      ghost var src := Contents();
      totalRed, totalGreen, totalBlue := 0, 0, 0;
      for dx := -1 to 2
        invariant totalRed == Filters.WindowSum(src, x, y, dx + 1, Red)
        invariant totalGreen == Filters.WindowSum(src, x, y, dx + 1, Green)
        invariant totalBlue == Filters.WindowSum(src, x, y, dx + 1, Blue)
      {
        for dy := -1 to 2
          invariant totalRed == Filters.WindowSum(src, x, y, dx + 1, Red) + Filters.ColumnSum(src, x, y, dx, dy + 1, Red)
          invariant totalGreen == Filters.WindowSum(src, x, y, dx + 1, Green) + Filters.ColumnSum(src, x, y, dx, dy + 1, Green)
          invariant totalBlue == Filters.WindowSum(src, x, y, dx + 1, Blue) + Filters.ColumnSum(src, x, y, dx, dy + 1, Blue)
        {
          var pixel := GetPixel(x + dx, y + dy);
          totalRed := totalRed + pixel.red;
          totalGreen := totalGreen + pixel.green;
          totalBlue := totalBlue + pixel.blue;
        }
      }
    }

    /**
     * getMinimumDimensions: the smallest width and height over the list; an empty list
     * throws at pictures.get(0).
     */
    static method GetMinimumDimensions(pictures: seq<Picture>) returns (r: Result<(nat, nat)>)
      ensures |pictures| == 0 ==> r == Err(IndexOutOfBounds)
      ensures |pictures| > 0 ==> r == Ok(MinDims(Snapshot(pictures)))
      ensures r.Ok? ==> forall i :: 0 <= i < |pictures| ==> r.value.0 <= pictures[i].Width() && r.value.1 <= pictures[i].Height()
    {
      if |pictures| == 0 {
        return Err(IndexOutOfBounds);
      }
      var minWidth := pictures[0].Width();
      var minHeight := pictures[0].Height();
      ghost var wi, hi := 0, 0;
      for i := 0 to |pictures|
        invariant 0 <= wi < |pictures| && minWidth == pictures[wi].Width()
        invariant 0 <= hi < |pictures| && minHeight == pictures[hi].Height()
        invariant forall k :: 0 <= k < i ==> minWidth <= pictures[k].Width() && minHeight <= pictures[k].Height()
      {
        var width := pictures[i].Width();
        if width < minWidth {
          minWidth, wi := width, i;
        }
        var height := pictures[i].Height();
        if height < minHeight {
          minHeight, hi := height, i;
        }
      }
      ghost var imgs := Snapshot(pictures);
      assert imgs[wi].width == minWidth && imgs[hi].height == minHeight;
      MinDimsIsLeast(imgs, minWidth, minHeight);
      return Ok((minWidth, minHeight));
    }

    /**
     * blend: an empty list throws; otherwise a new picture of the minimum width and height
     * whose every channel is the truncated mean of that channel over the inputs.
     */
    static method Blend(inputs: seq<Picture>) returns (r: Result<Picture>)
      ensures r.Ok? ==> fresh(r.value.store)
      ensures ContentsOf(r) == Composite.Blend(old(Snapshot(inputs)))
    {
      ghost var imgs := Snapshot(inputs);
      var minDims := GetMinimumDimensions(inputs);
      if minDims.Err? {
        return Err(minDims.error);
      }
      var out := MeanPicture(inputs, minDims.value.0, minDims.value.1);
      Composite.BlendOfMeans(imgs, out.Contents());
      return Ok(out);
    }

    /** blend's two loops: a width x height picture of the per-pixel means of the inputs. */
    static method MeanPicture(inputs: seq<Picture>, width: nat, height: nat) returns (out: Picture)
      requires |inputs| > 0
      requires forall i :: 0 <= i < |inputs| ==> width <= inputs[i].Width() && height <= inputs[i].Height()
      ensures fresh(out.store) && out.Width() == width && out.Height() == height
      ensures forall x, y :: 0 <= x < width && 0 <= y < height ==> Composite.AllContain(old(Snapshot(inputs)), x, y)
      ensures forall x, y :: 0 <= x < width && 0 <= y < height ==>
        out.GetPixel(x, y) == Composite.MeanColor(old(Snapshot(inputs)), x, y)
    {
      ghost var imgs := Snapshot(inputs);
      forall x, y | 0 <= x < width && 0 <= y < height
        ensures Composite.AllContain(imgs, x, y)
      {
        forall i | 0 <= i < |inputs|
          ensures imgs[i].Wf() && imgs[i].InBounds(x, y)
        {
          assert imgs[i] == inputs[i].Contents();
        }
      }
      ghost var t := Composite.MeanTable(imgs, width, height);
      out := new Picture(width, height);
      for x := 0 to width
        invariant fresh(out.store) && out.Width() == width && out.Height() == height
        invariant forall i, j :: 0 <= i < x && 0 <= j < height ==> out.GetPixel(i, j) == t[i][j]
      {
        for y := 0 to height
          invariant forall i, j :: 0 <= i < x && 0 <= j < height ==> out.GetPixel(i, j) == t[i][j]
          invariant forall j :: 0 <= j < y ==> out.GetPixel(x, j) == t[x][j]
        {
          var avg := AveragePixel(inputs, x, y);
          assert avg == t[x][y];
          out.SetPixel(x, y, avg);
        }
      }
      forall i, j | 0 <= i < width && 0 <= j < height
        ensures out.GetPixel(i, j) == Composite.MeanColor(imgs, i, j)
      {
        assert out.GetPixel(i, j) == t[i][j];
      }
    }

    /** blend's inner loop: the channel totals at (x, y) over the inputs, each divided by their number. */
    static method AveragePixel(inputs: seq<Picture>, x: int, y: int) returns (avg: Color)
      requires |inputs| > 0 && forall i :: 0 <= i < |inputs| ==> inputs[i].Contains(x, y)
      ensures Composite.AllContain(Snapshot(inputs), x, y)
      ensures avg == Composite.MeanColor(Snapshot(inputs), x, y)
    {
      ghost var imgs := Snapshot(inputs);
      var numPictures := |inputs|;
      var totalRed, totalGreen, totalBlue := 0, 0, 0;
      for p := 0 to numPictures
        invariant totalRed == Composite.ChannelSum(imgs[..p], x, y, Red)
        invariant totalGreen == Composite.ChannelSum(imgs[..p], x, y, Green)
        invariant totalBlue == Composite.ChannelSum(imgs[..p], x, y, Blue)
      {
        var pixel := inputs[p].GetPixel(x, y);
        totalRed := totalRed + pixel.red;
        totalGreen := totalGreen + pixel.green;
        totalBlue := totalBlue + pixel.blue;
        assert imgs[..p + 1][..p] == imgs[..p];
      }
      assert imgs[..numPictures] == imgs;
      Arithmetic.QuotientBounds(totalRed, numPictures, 255);
      Arithmetic.QuotientBounds(totalGreen, numPictures, 255);
      Arithmetic.QuotientBounds(totalBlue, numPictures, 255);
      avg := Color(totalRed / numPictures, totalGreen / numPictures, totalBlue / numPictures);
    }

    /**
     * mosaic: an empty list throws, a zero tile size throws, and so does a minimum extent
     * with no whole tile across or down; otherwise a new picture of the minimum extent cut
     * down to whole tiles, pixel (x, y) copied from input (x / tileSize + y / tileSize) % n.
     * A negative index throws at List.get.
     */
    static method Mosaic(inputs: seq<Picture>, tileSize: int) returns (r: Result<Picture>)
      ensures r.Ok? ==> fresh(r.value.store)
      ensures ContentsOf(r) == Composite.Mosaic(old(Snapshot(inputs)), tileSize)
    {
      ghost var imgs := Snapshot(inputs);
      var minDims := GetMinimumDimensions(inputs);
      if minDims.Err? {
        return Err(minDims.error);
      }
      if tileSize == 0 {
        return Err(DivisionByZero);
      }
      assert minDims.value == MinDims(imgs);
      var minWidth := Composite.CropToTiles(minDims.value.0, tileSize);
      var minHeight := Composite.CropToTiles(minDims.value.1, tileSize);
      if minWidth == 0 || minHeight == 0 {
        // new Picture(minWidth, minHeight): BufferedImage refuses an empty extent
        return Err(IllegalArgument);
      }
      r := TilePicture(inputs, tileSize, minWidth, minHeight);
      if r.Err? {
        Composite.MosaicThrowsOnNegativeTile(imgs, tileSize);
        return;
      }
      TiledContents(r.value, imgs, tileSize);
      Composite.MosaicOfTiles(imgs, tileSize, r.value.Contents());
    }

    /**
     * mosaic's two loops over a width x height output: pixel (x, y) copied from input
     * (x / tileSize + y / tileSize) % n, or List.get's exception at the first negative index.
     */
    static method TilePicture(inputs: seq<Picture>, tileSize: int, width: nat, height: nat) returns (r: Result<Picture>)
      requires |inputs| > 0 && tileSize != 0
      requires forall i :: 0 <= i < |inputs| ==> width <= inputs[i].Width() && height <= inputs[i].Height()
      ensures r.Ok? ==> fresh(r.value.store) && r.value.Width() == width && r.value.Height() == height
      ensures r.Ok? ==> forall x, y :: 0 <= x < width && 0 <= y < height ==>
        Composite.TiledAt(old(Snapshot(inputs)), tileSize, x, y, r.value.GetPixel(x, y))
      ensures r.Err? ==> r.error == IndexOutOfBounds && Composite.NegativeTile(width, height, tileSize, |inputs|)
    {
      ghost var imgs := Snapshot(inputs);
      var output := new Picture(width, height);
      var numPictures := |inputs|;
      for x := 0 to width
        invariant fresh(output.store) && output.Width() == width && output.Height() == height
        invariant forall i, j :: 0 <= i < x && 0 <= j < height ==> Composite.TiledAt(imgs, tileSize, i, j, output.GetPixel(i, j))
      {
        for y := 0 to height
          invariant forall i, j :: 0 <= i < x && 0 <= j < height ==> Composite.TiledAt(imgs, tileSize, i, j, output.GetPixel(i, j))
          invariant forall j :: 0 <= j < y ==> Composite.TiledAt(imgs, tileSize, x, j, output.GetPixel(x, j))
        {
          var currentIndex := Rem(Div(x, tileSize) + Div(y, tileSize), numPictures);
          assert currentIndex == Composite.TileIndex(x, y, tileSize, numPictures);
          if currentIndex < 0 {
            return Err(IndexOutOfBounds);
          }
          var currentPicture := inputs[currentIndex];
          assert currentPicture.Contents() == imgs[currentIndex];
          output.SetPixel(x, y, currentPicture.GetPixel(x, y));
        }
      }
      return Ok(output);
    }
  }

  /** contains holds exactly at the coordinates of the picture's raster. */
  lemma ContainsIffInBounds(p: Picture, x: int, y: int)
    ensures p.Contains(x, y) <==> 0 <= x < p.Contents().width && 0 <= y < p.Contents().height
  {
  }

  /** A picture whose every pixel agrees with an image of its extent holds that image. */
  lemma Filled(p: Picture, img: Image)
    requires img.Wf() && img.width == p.Width() && img.height == p.Height()
    requires forall x, y :: img.InBounds(x, y) ==> p.GetPixel(x, y) == img.At(x, y)
    ensures p.Contents() == img
  {
    Ext(p.Contents(), img);
  }

  /** A picture every pixel of which is what mosaic copies there, read as a value. */
  lemma TiledContents(p: Picture, imgs: seq<Image>, tileSize: int)
    requires forall x, y :: p.Contains(x, y) ==> Composite.TiledAt(imgs, tileSize, x, y, p.GetPixel(x, y))
    ensures forall x, y :: p.Contents().InBounds(x, y) ==> Composite.TiledAt(imgs, tileSize, x, y, p.Contents().At(x, y))
  {
  }

  /** A picture out whose pixels invert would write from p's holds Tones.Invert(p.Contents()). */
  lemma InvertFilled(p: Picture, out: Picture)
    requires out.Width() == p.Width() && out.Height() == p.Height()
    requires forall i, j :: 0 <= i < p.Width() && 0 <= j < p.Height() ==> out.GetPixel(i, j) == p.GetPixel(i, j).Invert()
    ensures out.Contents() == Tones.Invert(p.Contents())
  {
    var want := Tones.Invert(p.Contents());
    forall i, j | want.InBounds(i, j)
      ensures out.GetPixel(i, j) == want.At(i, j)
    {
      assert out.GetPixel(i, j) == p.GetPixel(i, j).Invert();
    }
    Filled(out, want);
  }

  /** A picture out whose pixels grayscale would write from p's holds Tones.Grayscale(p.Contents()). */
  lemma GrayscaleFilled(p: Picture, out: Picture)
    requires out.Width() == p.Width() && out.Height() == p.Height()
    requires forall i, j :: 0 <= i < p.Width() && 0 <= j < p.Height() ==> out.GetPixel(i, j) == Tones.Gray(p.GetPixel(i, j))
    ensures out.Contents() == Tones.Grayscale(p.Contents())
  {
    var want := Tones.Grayscale(p.Contents());
    forall i, j | want.InBounds(i, j)
      ensures out.GetPixel(i, j) == want.At(i, j)
    {
      assert out.GetPixel(i, j) == Tones.Gray(p.GetPixel(i, j));
    }
    Filled(out, want);
  }

  /** A picture out whose pixels rotate90 would write from p's holds Geometry.Rotate90(p.Contents()). */
  lemma Rotate90Filled(p: Picture, out: Picture)
    requires out.Width() == p.Height() && out.Height() == p.Width()
    requires forall i, j :: 0 <= i < p.Width() && 0 <= j < p.Height() ==> out.GetPixel(p.Height() - j - 1, i) == p.GetPixel(i, j)
    ensures out.Contents() == Geometry.Rotate90(p.Contents())
  {
    var want := Geometry.Rotate90(p.Contents());
    forall i, j | want.InBounds(i, j)
      ensures out.GetPixel(i, j) == want.At(i, j)
    {
      var x, y := j, p.Height() - 1 - i;
      assert out.GetPixel(p.Height() - y - 1, x) == p.GetPixel(x, y);
    }
    Filled(out, want);
  }

  /** A picture out whose pixels rotate180 would write from p's holds Geometry.Rotate180(p.Contents()). */
  lemma Rotate180Filled(p: Picture, out: Picture)
    requires out.Width() == p.Width() && out.Height() == p.Height()
    requires forall i, j :: 0 <= i < p.Width() && 0 <= j < p.Height() ==> out.GetPixel(i, j) == p.GetPixel(p.Width() - i - 1, p.Height() - j - 1)
    ensures out.Contents() == Geometry.Rotate180(p.Contents())
  {
    var want := Geometry.Rotate180(p.Contents());
    forall i, j | want.InBounds(i, j)
      ensures out.GetPixel(i, j) == want.At(i, j)
    {
      assert out.GetPixel(i, j) == p.GetPixel(p.Width() - i - 1, p.Height() - j - 1);
    }
    Filled(out, want);
  }

  /** A picture out whose pixels rotate270 would write from p's holds Geometry.Rotate270(p.Contents()). */
  lemma Rotate270Filled(p: Picture, out: Picture)
    requires out.Width() == p.Height() && out.Height() == p.Width()
    requires forall i, j :: 0 <= i < p.Width() && 0 <= j < p.Height() ==> out.GetPixel(j, p.Width() - i - 1) == p.GetPixel(i, j)
    ensures out.Contents() == Geometry.Rotate270(p.Contents())
  {
    var want := Geometry.Rotate270(p.Contents());
    forall i, j | want.InBounds(i, j)
      ensures out.GetPixel(i, j) == want.At(i, j)
    {
      var x, y := p.Width() - 1 - j, i;
      assert out.GetPixel(y, p.Width() - x - 1) == p.GetPixel(x, y);
    }
    Filled(out, want);
  }

  /** A picture out whose pixels flipHorizontal would write from p's holds Geometry.FlipHorizontal(p.Contents()). */
  lemma FlipHorizontalFilled(p: Picture, out: Picture)
    requires out.Width() == p.Width() && out.Height() == p.Height()
    requires forall i, j :: 0 <= i < p.Width() && 0 <= j < p.Height() ==> out.GetPixel(i, j) == p.GetPixel(p.Width() - i - 1, j)
    ensures out.Contents() == Geometry.FlipHorizontal(p.Contents())
  {
    var want := Geometry.FlipHorizontal(p.Contents());
    forall i, j | want.InBounds(i, j)
      ensures out.GetPixel(i, j) == want.At(i, j)
    {
      assert out.GetPixel(i, j) == p.GetPixel(p.Width() - i - 1, j);
    }
    Filled(out, want);
  }

  /** A picture out whose pixels flipVertical would write from p's holds Geometry.FlipVertical(p.Contents()). */
  lemma FlipVerticalFilled(p: Picture, out: Picture)
    requires out.Width() == p.Width() && out.Height() == p.Height()
    requires forall i, j :: 0 <= i < p.Width() && 0 <= j < p.Height() ==> out.GetPixel(i, j) == p.GetPixel(i, p.Height() - j - 1)
    ensures out.Contents() == Geometry.FlipVertical(p.Contents())
  {
    var want := Geometry.FlipVertical(p.Contents());
    forall i, j | want.InBounds(i, j)
      ensures out.GetPixel(i, j) == want.At(i, j)
    {
      assert out.GetPixel(i, j) == p.GetPixel(i, p.Height() - j - 1);
    }
    Filled(out, want);
  }

  /** A picture out whose pixels blur would write from p's holds Filters.Blur(p.Contents()). */
  lemma BlurFilled(p: Picture, out: Picture)
    requires out.Width() == p.Width() && out.Height() == p.Height()
    requires forall i, j :: 0 <= i < p.Width() && 0 <= j < p.Height() ==> out.GetPixel(i, j) == Filters.BlurAt(p.Contents(), i, j)
    ensures out.Contents() == Filters.Blur(p.Contents())
  {
    var want := Filters.Blur(p.Contents());
    forall i, j | want.InBounds(i, j)
      ensures out.GetPixel(i, j) == want.At(i, j)
    {
      assert out.GetPixel(i, j) == Filters.BlurAt(p.Contents(), i, j);
    }
    Filled(out, want);
  }

  /** The pictures of a list, as values. */
  ghost function Snapshot(ps: seq<Picture>): (imgs: seq<Image>)
    reads set p | p in ps :: p.store
    ensures |imgs| == |ps| && forall i {:trigger imgs[i]} :: 0 <= i < |ps| ==> imgs[i] == ps[i].Contents()
    ensures Composite.AllWf(imgs)
  {
    seq(|ps|, i requires 0 <= i < |ps| reads set p | p in ps :: p.store => ps[i].Contents())
  }

  /** The outcome of an operation that returns a new picture or throws, as a value. */
  ghost function ContentsOf(r: Result<Picture>): Result<Image>
    reads if r.Ok? then {r.value.store} else {}
  {
    match r
    case Ok(p) => Ok(p.Contents())
    case Err(e) => Err(e)
  }
}
