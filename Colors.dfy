/**
 * The RGB direct colour model: a colour is three 8-bit channels, and a pixel of the
 * picture's raster holds it as one packed 32-bit integer 0xffRRGGBB (alpha always opaque).
 */
module Colors {
  import opened JavaLang
  import opened Arithmetic

  type Channel = c: int | 0 <= c <= 255

  datatype Component = Red | Green | Blue

  datatype Color = Color(red: Channel, green: Channel, blue: Channel) {

    function Get(k: Component): Channel
    {
      match k
      case Red => red
      case Green => green
      case Blue => blue
    }

    /** Every channel replaced by its complement 255 - c. */
    function Invert(): (r: Color)
      ensures forall k :: r.Get(k) + Get(k) == 255
    {
      Color(255 - red, 255 - green, 255 - blue)
    }
  }

  const Black := Color(0, 0, 0)

  /** Java `v & 0xff`: the low eight bits of a two's-complement integer. */
  function Low8(v: int): Channel
  {
    v % 0x100
  }

  /**
   * The packed value Picture.setPixel stores: 0xff000000 | (r & 0xff) << 16 | (g & 0xff) << 8 | (b & 0xff).
   * The fields do not overlap, so the `|` are sums; the result is the (negative) Java int
   * that BufferedImage.getRGB later returns.
   */
  function Pack(c: Color): (v: int32)
    ensures -0x100_0000 <= v < 0
  {
    Wrap(0xff00_0000 + Low8(c.red) * 0x1_0000 + Low8(c.green) * 0x100 + Low8(c.blue))
  }

  /** Picture.getPixel's decoding: ((v >> 16) & 0xff, (v >> 8) & 0xff, v & 0xff); `>>` is floor division. */
  function Unpack(v: int): Color
  {
    Color(Low8(v / 0x1_0000), Low8(v / 0x100), Low8(v))
  }

  /** Reading back a stored colour gives that colour: the masks recover each channel. */
  lemma UnpackPack(c: Color)
    ensures Unpack(Pack(c)) == c
  {
    var u := 0xff00_0000 + c.red * 0x1_0000 + c.green * 0x100 + c.blue;
    DivModOf(1, TWO_32, u + TWO_31 - TWO_32);
    var v := Pack(c);
    assert v == u - TWO_32;
    DivModOf(c.red - 0x100, 0x1_0000, c.green * 0x100 + c.blue);
    DivModOf(-1, 0x100, c.red);
    DivModOf((c.red - 0x100) * 0x100 + c.green, 0x100, c.blue);
    DivModOf(c.red - 0x100, 0x100, c.green);
  }

  /** Different colours are stored as different integers. */
  lemma PackInjective(a: Color, b: Color)
    ensures Pack(a) == Pack(b) <==> a == b
  {
    UnpackPack(a);
    UnpackPack(b);
  }
}
