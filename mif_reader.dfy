/** The two readers as they run: a loop over the lines of the file that keeps WIDTH,
    DEPTH, the content flag and the address-to-value dictionary in local variables,
    followed by the placement of the dictionary into a zero-filled image of the given
    resolution. */
module MifReader {
  import opened Wrappers
  import opened Bytes
  import opened Numerals
  import opened Strings
  import opened Radix
  import opened Raster
  import opened RgbChannels
  import opened MifParse

  /** The reading loop of mif_to_grayscale_image (v == Grey) and mif_to_rgb_image
      (v == Rgb): the file's header fields and pixels, or the exception that escapes. */
  method ReadMif(v: Variant, lines: seq<string>) returns (r: Result<MifData>)
    ensures r == Parse(v, lines)
  {
    ghost var ks := Kinds(v, lines);
    var width: Option<nat> := None;
    var depth: Option<nat> := None;
    var pixels: map<nat, nat> := map[];
    var inContent := false;
    var i := 0;
    while i < |lines|
      invariant i <= |lines|
      invariant Run(v, Start, ks) == Run(v, ParserState(width, depth, inContent, pixels), ks[i..])
    {
      ghost var s := ParserState(width, depth, inContent, pixels);
      RunFrom(v, s, ks, i);
      var step := ReadLine(v, width, depth, inContent, pixels, lines[i]);
      match step
      case Stop =>
        return Ok(MifData(width, depth, pixels));
      case Fail(e) =>
        return Err(e);
      case Next(t) =>
        width, depth, inContent, pixels := t.width, t.depth, t.inContent, t.pixels;
      i := i + 1;
    }
    return Ok(MifData(width, depth, pixels));
  }

  /** One pass of the reading loop: the tests on the stripped line, in the reader's
      order, and what each does to the reader's variables. */
  method ReadLine(v: Variant, width: Option<nat>, depth: Option<nat>, inContent: bool, pixels: map<nat, nat>, raw: string)
    returns (step: Step)
    ensures step == StepLine(v, ParserState(width, depth, inContent, pixels), Classify(v, raw))
  {
    var line := Strip(raw);
    ghost var k := KindOf(v, line);
    assert Classify(v, raw) == k;
    if StartsWith(line, "WIDTH") {
      var n := FirstNumber(line);
      assert k == WidthLine(line);
      if n.None? {
        return Fail(HeaderWithoutNumber);
      }
      return Next(ParserState(n, depth, inContent, pixels));
    } else if StartsWith(line, "DEPTH") {
      var n := FirstNumber(line);
      assert k == DepthLine(line);
      if n.None? {
        return Fail(HeaderWithoutNumber);
      }
      return Next(ParserState(width, n, inContent, pixels));
    } else if EntersContent(v, line) {
      assert k == BeginLine;
      return Next(ParserState(width, depth, true, pixels));
    } else if EndsContent(v, line) {
      assert k == EndLine;
      return Stop;
    } else if inContent && ':' in line {
      var field := ParseDataLine(line);
      assert k == DataLine(line);
      match field
      case Word(addr, value) =>
        return Next(ParserState(width, depth, inContent, pixels[addr := value]));
      case NotPair =>
      case BadHex =>
        if v == Rgb {
          return Fail(BadHexField);
        }
    }
    return Next(ParserState(width, depth, inContent, pixels));
  }

  /** The grey level the image shows at row r, column c: the value read for address
      Address(r, c) = r * width + c, or 0 when the file has no line for it. */
  function GreyPixel(pixels: map<nat, nat>, width: nat, r: nat, c: nat): nat
  {
    var a := Address(r, c, width);
    if a in pixels then pixels[a] else 0
  }

  /** Grey levels that fit a uint8 at every address the image covers. */
  predicate BytesInRange(pixels: map<nat, nat>, imageWidth: nat, imageHeight: nat)
  {
    forall a :: a in pixels && a < imageWidth * imageHeight ==> pixels[a] < 256
  }

  /** Only the cell (addr / width, addr % width) has address addr, and an address at or
      beyond width * height has no cell. */
  lemma CellOfAddress(addr: nat, imageWidth: nat, imageHeight: nat)
    ensures forall r, c :: 0 <= r < imageHeight && 0 <= c < imageWidth ==>
      (Address(r, c, imageWidth) == addr <==>
        addr < imageWidth * imageHeight && r == addr / imageWidth && c == addr % imageWidth)
  {
    AddressBelowDepth(imageHeight, imageWidth);
    forall r, c | 0 <= r < imageHeight && 0 <= c < imageWidth
      ensures Address(r, c, imageWidth) == addr <==>
        addr < imageWidth * imageHeight && r == addr / imageWidth && c == addr % imageWidth
    {
      SplitOfAddress(r, c, imageWidth);
      if addr < imageWidth * imageHeight {
        AddressOfSplit(addr, imageWidth);
      }
    }
  }

  /** The placement loop of mif_to_grayscale_image: a zero image of imageHeight rows and
      imageWidth columns, with the value of every address below imageWidth * imageHeight
      stored at (addr // imageWidth, addr % imageWidth). */
  method PlaceGrey(pixels: map<nat, nat>, imageWidth: nat, imageHeight: nat) returns (img: array2<uint8>)
    requires BytesInRange(pixels, imageWidth, imageHeight)
    ensures fresh(img) && img.Length0 == imageHeight && img.Length1 == imageWidth
    ensures forall r, c :: 0 <= r < imageHeight && 0 <= c < imageWidth ==>
      img[r, c] as nat == GreyPixel(pixels, imageWidth, r, c)
  {
    img := new uint8[imageHeight, imageWidth]((_, _) => 0);
    var todo := pixels.Keys;
    while todo != {}
      invariant todo <= pixels.Keys
      invariant forall r, c :: 0 <= r < imageHeight && 0 <= c < imageWidth ==>
        img[r, c] as nat == GreyPixel(pixels - todo, imageWidth, r, c)
      decreases |todo|
    {
      var addr :| addr in todo;
      CellOfAddress(addr, imageWidth, imageHeight);
      if addr < imageWidth * imageHeight {
        RowBound(addr, imageWidth, imageHeight);
        var row := addr / imageWidth;
        var col := addr % imageWidth;
        img[row, col] := pixels[addr] as uint8;
      }
      todo := todo - {addr};
    }
  }

  /** The three bytes the RGB image shows for a word: red, green and blue, each scaled
      to eight bits. */
  datatype Rgb8 = Rgb8(red: nat, green: nat, blue: nat)

  function Channels(word: nat, rBits: nat, gBits: nat, bBits: nat): (px: Rgb8)
    ensures px.red < 256 && px.green < 256 && px.blue < 256
  {
    var r, g, b := Red(word, rBits, gBits, bBits), Green(word, gBits, bBits), Blue(word, bBits);
    ScaleBound(r, rBits);
    ScaleBound(g, gBits);
    ScaleBound(b, bBits);
    Rgb8(ScaleTo8(r, rBits), ScaleTo8(g, gBits), ScaleTo8(b, bBits))
  }

  /** The colour at row r, column c: the channels of the word read for its address, or
      black when the file has no line for it. */
  function RgbPixel(pixels: map<nat, nat>, rBits: nat, gBits: nat, bBits: nat, width: nat, r: nat, c: nat): Rgb8
  {
    var a := Address(r, c, width);
    if a in pixels then Channels(pixels[a], rBits, gBits, bBits) else Rgb8(0, 0, 0)
  }

  /** The placement loop of mif_to_rgb_image: a zero image of imageHeight x imageWidth x 3
      bytes, with the scaled red, green and blue of every address below
      imageWidth * imageHeight in planes 0, 1 and 2 of its cell. */
  method PlaceRgb(pixels: map<nat, nat>, rBits: nat, gBits: nat, bBits: nat, imageWidth: nat, imageHeight: nat)
    returns (img: array3<uint8>)
    ensures fresh(img) && img.Length0 == imageHeight && img.Length1 == imageWidth && img.Length2 == 3
    ensures forall r, c :: 0 <= r < imageHeight && 0 <= c < imageWidth ==>
      Rgb8(img[r, c, 0] as nat, img[r, c, 1] as nat, img[r, c, 2] as nat)
        == RgbPixel(pixels, rBits, gBits, bBits, imageWidth, r, c)
  {
    img := new uint8[imageHeight, imageWidth, 3]((_, _, _) => 0);
    var todo := pixels.Keys;
    while todo != {}
      invariant todo <= pixels.Keys
      invariant forall r, c :: 0 <= r < imageHeight && 0 <= c < imageWidth ==>
        Rgb8(img[r, c, 0] as nat, img[r, c, 1] as nat, img[r, c, 2] as nat)
          == RgbPixel(pixels - todo, rBits, gBits, bBits, imageWidth, r, c)
      decreases |todo|
    {
      var addr :| addr in todo;
      CellOfAddress(addr, imageWidth, imageHeight);
      if addr < imageWidth * imageHeight {
        RowBound(addr, imageWidth, imageHeight);
        var row := addr / imageWidth;
        var col := addr % imageWidth;
        var px := Channels(pixels[addr], rBits, gBits, bBits);
        img[row, col, 0] := px.red as uint8;
        img[row, col, 1] := px.green as uint8;
        img[row, col, 2] := px.blue as uint8;
      }
      todo := todo - {addr};
    }
  }

  /** mif_to_grayscale_image without the file and the PNG: read the file, then place its
      pixels. The exception of the reading loop escapes as an error. */
  method MifToGrayscaleImage(lines: seq<string>, imageWidth: nat, imageHeight: nat)
    returns (r: Result<array2<uint8>>)
    requires Parse(Grey, lines).Ok? ==> BytesInRange(Parse(Grey, lines).value.pixels, imageWidth, imageHeight)
    ensures Parse(Grey, lines).Err? ==> r == Err(Parse(Grey, lines).error)
    ensures Parse(Grey, lines).Ok? ==> r.Ok? && fresh(r.value)
    ensures Parse(Grey, lines).Ok? ==>
      r.Ok? && r.value.Length0 == imageHeight && r.value.Length1 == imageWidth
    ensures Parse(Grey, lines).Ok? ==>
      r.Ok? && forall row, col :: 0 <= row < imageHeight && 0 <= col < imageWidth ==>
        r.value[row, col] as nat == GreyPixel(Parse(Grey, lines).value.pixels, imageWidth, row, col)
  {
    var data := ReadMif(Grey, lines);
    if data.Err? {
      return Err(data.error);
    }
    var img := PlaceGrey(data.value.pixels, imageWidth, imageHeight);
    return Ok(img);
  }

  /** mif_to_rgb_image without the file and the PNG. */
  method MifToRgbImage(lines: seq<string>, rBits: nat, gBits: nat, bBits: nat, imageWidth: nat, imageHeight: nat)
    returns (r: Result<array3<uint8>>)
    ensures Parse(Rgb, lines).Err? ==> r == Err(Parse(Rgb, lines).error)
    ensures Parse(Rgb, lines).Ok? ==> r.Ok? && fresh(r.value)
    ensures Parse(Rgb, lines).Ok? ==>
      r.Ok? && r.value.Length0 == imageHeight && r.value.Length1 == imageWidth && r.value.Length2 == 3
    ensures Parse(Rgb, lines).Ok? ==>
      r.Ok? && forall row, col :: 0 <= row < imageHeight && 0 <= col < imageWidth ==>
        Rgb8(r.value[row, col, 0] as nat, r.value[row, col, 1] as nat, r.value[row, col, 2] as nat)
          == RgbPixel(Parse(Rgb, lines).value.pixels, rBits, gBits, bBits, imageWidth, row, col)
  {
    var data := ReadMif(Rgb, lines);
    if data.Err? {
      return Err(data.error);
    }
    var img := PlaceRgb(data.value.pixels, rBits, gBits, bBits, imageWidth, imageHeight);
    return Ok(img);
  }
}
