/** What the readers make of the writer's files: every line the writer produces is read
    as intended (the header fields, the start of the content, one data word per pixel
    and the end), so reading a written file gives back the header fields and the grid,
    address by address, and the grey image placed from it is the image written. */
module MifRoundTrip {
  import opened Wrappers
  import opened Bytes
  import opened Numerals
  import opened Strings
  import opened Radix
  import opened Raster
  import opened MifWriter
  import opened MifParse
  import opened MifReader

  /** A content line is made of upper-case hexadecimal digits, one ':' and one ';'. */
  lemma ContentLineChars(a: nat, x: nat)
    ensures forall i :: 0 <= i < |ContentLine(a, x)| ==>
      IsUpperHexChar(ContentLine(a, x)[i]) || ContentLine(a, x)[i] == ':' || ContentLine(a, x)[i] == ';'
  {
    var h, p := ToHex(a), PadHex(x, 2);
    var line := ContentLine(a, x);
    forall i | 0 <= i < |line|
      ensures IsUpperHexChar(line[i]) || line[i] == ':' || line[i] == ';'
    {
      if i < |h| {
        assert line[i] == h[i];
      } else if i == |h| {
        assert line[i] == ':';
      } else if i < |h| + 1 + |p| {
        assert line[i] == p[i - |h| - 1];
      }
    }
  }

  /** Hexadecimal digits are not whitespace, so a string of them is its own strip. */
  lemma HexStrip(s: string)
    requires forall i :: 0 <= i < |s| ==> IsUpperHexChar(s[i])
    ensures Strip(s) == s
  {
    if s != [] {
      HexNotSpace(s[0]);
      HexNotSpace(s[|s| - 1]);
    }
    StripUnchanged(s);
  }

  lemma HexNotSpace(c: char)
    requires IsUpperHexChar(c)
    ensures !IsSpace(c)
  {
  }

  /** With the ';' removed, a content line is the address field, ':' and the value field. */
  lemma ContentLineFields(a: nat, x: nat)
    ensures RemoveChar(ContentLine(a, x), ';') == ToHex(a) + ":" + PadHex(x, 2)
  {
    var h, p := ToHex(a), PadHex(x, 2);
    RemoveAppend(h + ":" + p, ";", ';');
    RemoveAppend(h + ":", p, ';');
    RemoveAppend(h, ":", ';');
    RemoveAbsent(h, ';');
    RemoveAbsent(":", ';');
    RemoveAbsent(p, ';');
    assert RemoveChar(";", ';') == [];
    assert h + ":" + p + [] == h + ":" + p;
  }

  /** Two hexadecimal fields joined by ':' split back into the two fields. */
  lemma HexPairSplit(h: string, p: string)
    requires forall i :: 0 <= i < |h| ==> IsUpperHexChar(h[i])
    requires forall i :: 0 <= i < |p| ==> IsUpperHexChar(p[i])
    ensures Split(h + ":" + p, ':') == [h, p]
  {
    assert Join([h, p], ':') == h + ":" + p;
    SplitJoin([h, p], ':');
  }

  /** A hexadecimal field that reads as n still reads as n once stripped. */
  lemma StrippedHexParses(h: string, n: nat)
    requires forall i :: 0 <= i < |h| ==> IsUpperHexChar(h[i])
    requires ParseHex(h) == Some(n)
    ensures ParseHex(Strip(h)) == Some(n)
  {
    HexStrip(h);
  }

  /** The data line for (a, x) holds the word x for address a. */
  lemma ContentLineField(a: nat, x: nat)
    ensures ParseDataLine(ContentLine(a, x)) == Word(a, x)
  {
    ContentLineFields(a, x);
    HexPairSplit(ToHex(a), PadHex(x, 2));
    ToHexParses(a);
    PadHexParses(x, 2);
    StrippedHexParses(ToHex(a), a);
    StrippedHexParses(PadHex(x, 2), x);
  }

  /** A line that is its own strip is classified by the tests on it as it is. */
  lemma Stripped(v: Variant, line: string)
    requires Strip(line) == line
    ensures Classify(v, line) == KindOf(v, line)
  {
  }

  /** A content line has no surrounding whitespace. */
  lemma ContentStrip(a: nat, x: nat)
    ensures Strip(ContentLine(a, x)) == ContentLine(a, x)
  {
    var line := ContentLine(a, x);
    ContentLineChars(a, x);
    assert !IsSpace(line[0]);
    assert !IsSpace(line[|line| - 1]);
    StripUnchanged(line);
  }

  /** A content line holds ':' and passes none of the earlier tests: it has no 'W', 'P',
      'G' or 'N', which "WIDTH", "DEPTH", "BEGIN", "CONTENT BEGIN" and "END" need. */
  lemma ContentKind(v: Variant, a: nat, x: nat)
    ensures KindOf(v, ContentLine(a, x)) == DataLine(ContentLine(a, x))
  {
    var h := ToHex(a);
    var line := ContentLine(a, x);
    ContentLineChars(a, x);
    NotStartsWith(line, "WIDTH", 'W');
    NotStartsWith(line, "DEPTH", 'P');
    NotContains(line, "BEGIN", 'G');
    NotStartsWith(line, "CONTENT BEGIN", 'N');
    NotStartsWith(line, "END", 'N');
    assert "END;"[1] == 'N';
    assert line[|h|] == ':';
  }

  /** Both readers take the writer's content lines for data lines. */
  lemma ContentLineKind(v: Variant, a: nat, x: nat)
    ensures Classify(v, ContentLine(a, x)) == DataLine(ContentLine(a, x))
  {
    ContentStrip(a, x);
    Stripped(v, ContentLine(a, x));
    ContentKind(v, a, x);
  }

  lemma WidthStrip(n: nat)
    ensures Strip("WIDTH=" + ToDecimal(n) + ";") == "WIDTH=" + ToDecimal(n) + ";"
  {
    var line := "WIDTH=" + ToDecimal(n) + ";";
    assert line[0] == 'W' && line[|line| - 1] == ';';
    StripUnchanged(line);
  }

  lemma WidthKind(v: Variant, n: nat)
    ensures KindOf(v, "WIDTH=" + ToDecimal(n) + ";") == WidthLine("WIDTH=" + ToDecimal(n) + ";")
  {
    var line := "WIDTH=" + ToDecimal(n) + ";";
    assert line[..5] == "WIDTH";
  }

  lemma WidthClassify(v: Variant, n: nat)
    ensures Classify(v, "WIDTH=" + ToDecimal(n) + ";") == WidthLine("WIDTH=" + ToDecimal(n) + ";")
  {
    WidthStrip(n);
    Stripped(v, "WIDTH=" + ToDecimal(n) + ";");
    WidthKind(v, n);
  }

  /** The number in a header line "WIDTH=<n>;" or "DEPTH=<n>;" is n. */
  lemma HeaderNumber(field: string, n: nat)
    requires field == "WIDTH=" || field == "DEPTH="
    ensures FirstNumber(field + ToDecimal(n) + ";") == Some(n)
  {
    FirstNumberOfField(field, n, ";");
  }

  /** "WIDTH=<n>;" is a WIDTH line whose first number is n. */
  lemma WidthLineKind(v: Variant, n: nat)
    ensures var line := "WIDTH=" + ToDecimal(n) + ";";
      Classify(v, line) == WidthLine(line) && FirstNumber(line) == Some(n)
  {
    WidthClassify(v, n);
    HeaderNumber("WIDTH=", n);
  }

  lemma DepthStrip(n: nat)
    ensures Strip("DEPTH=" + ToDecimal(n) + ";") == "DEPTH=" + ToDecimal(n) + ";"
  {
    var line := "DEPTH=" + ToDecimal(n) + ";";
    assert line[0] == 'D' && line[|line| - 1] == ';';
    StripUnchanged(line);
  }

  lemma DepthKind(v: Variant, n: nat)
    ensures KindOf(v, "DEPTH=" + ToDecimal(n) + ";") == DepthLine("DEPTH=" + ToDecimal(n) + ";")
  {
    var line := "DEPTH=" + ToDecimal(n) + ";";
    NotStartsWithAt(line, "WIDTH", 0);
    assert line[..5] == "DEPTH";
  }

  lemma DepthClassify(v: Variant, n: nat)
    ensures Classify(v, "DEPTH=" + ToDecimal(n) + ";") == DepthLine("DEPTH=" + ToDecimal(n) + ";")
  {
    DepthStrip(n);
    Stripped(v, "DEPTH=" + ToDecimal(n) + ";");
    DepthKind(v, n);
  }

  /** "DEPTH=<n>;" is a DEPTH line whose first number is n. */
  lemma DepthLineKind(v: Variant, n: nat)
    ensures var line := "DEPTH=" + ToDecimal(n) + ";";
      Classify(v, line) == DepthLine(line) && FirstNumber(line) == Some(n)
  {
    DepthClassify(v, n);
    HeaderNumber("DEPTH=", n);
  }

  /** The two radix lines mean nothing to the readers: neither is a header, a start or an
      end of the content, and neither holds ':'. */
  lemma AddressRadixKind(v: Variant)
    ensures KindOf(v, "ADDRESS_RADIX=HEX;") == OtherLine
  {
    var line := "ADDRESS_RADIX=HEX;";
    NotStartsWithAt(line, "WIDTH", 0);
    NotStartsWithAt(line, "DEPTH", 0);
    NotStartsWithAt(line, "CONTENT BEGIN", 0);
    NotStartsWithAt(line, "END", 0);
    NotContains(line, "BEGIN", 'B');
    assert line != "END;";
    assert ':' !in line;
  }

  lemma DataRadixKind(v: Variant)
    ensures KindOf(v, "DATA_RADIX=HEX;") == OtherLine
  {
    var line := "DATA_RADIX=HEX;";
    NotStartsWithAt(line, "WIDTH", 0);
    NotStartsWithAt(line, "DEPTH", 1);
    NotStartsWithAt(line, "CONTENT BEGIN", 0);
    NotStartsWithAt(line, "END", 0);
    NotContains(line, "BEGIN", 'B');
    assert line != "END;";
    assert ':' !in line;
  }

  lemma AddressRadixClassify(v: Variant)
    ensures Classify(v, "ADDRESS_RADIX=HEX;") == OtherLine
  {
    StripUnchanged("ADDRESS_RADIX=HEX;");
    Stripped(v, "ADDRESS_RADIX=HEX;");
    AddressRadixKind(v);
  }

  lemma DataRadixClassify(v: Variant)
    ensures Classify(v, "DATA_RADIX=HEX;") == OtherLine
  {
    StripUnchanged("DATA_RADIX=HEX;");
    Stripped(v, "DATA_RADIX=HEX;");
    DataRadixKind(v);
  }

  lemma BeginKind(v: Variant)
    ensures KindOf(v, "CONTENT BEGIN") == BeginLine
  {
    NotStartsWithAt("CONTENT BEGIN", "WIDTH", 0);
    NotStartsWithAt("CONTENT BEGIN", "DEPTH", 0);
    assert "CONTENT BEGIN"[8..][..5] == "BEGIN";
    ContainsAt("CONTENT BEGIN", "BEGIN", 8);
  }

  /** "CONTENT BEGIN" starts the content for both readers. */
  lemma BeginLineKind(v: Variant)
    ensures Classify(v, "CONTENT BEGIN") == BeginLine
  {
    StripUnchanged("CONTENT BEGIN");
    Stripped(v, "CONTENT BEGIN");
    BeginKind(v);
  }
  /** The kind of the first line, then the kinds of the rest. */
  lemma KindsCons(v: Variant, line: string, rest: seq<string>)
    ensures Kinds(v, [line] + rest) == [Classify(v, line)] + Kinds(v, rest)
  {
    KindsAppend(v, [line], rest);
    KindsOne(v, line);
  }

  /** Reading a line that goes on to state t, then the rest from t. */
  lemma RunCons(v: Variant, s: ParserState, line: string, rest: seq<string>, t: ParserState)
    requires StepLine(v, s, Classify(v, line)) == Next(t)
    ensures Run(v, s, Kinds(v, [line] + rest)) == Run(v, t, Kinds(v, rest))
  {
    KindsCons(v, line, rest);
    assert ([Classify(v, line)] + Kinds(v, rest))[1..] == Kinds(v, rest);
  }

  /** "WIDTH=<n>;" sets WIDTH to n. */
  lemma RunWidthLine(v: Variant, s: ParserState, n: nat, rest: seq<string>)
    ensures Run(v, s, Kinds(v, ["WIDTH=" + ToDecimal(n) + ";"] + rest)) == Run(v, s.(width := Some(n)), Kinds(v, rest))
  {
    WidthLineKind(v, n);
    RunCons(v, s, "WIDTH=" + ToDecimal(n) + ";", rest, s.(width := Some(n)));
  }

  /** "DEPTH=<n>;" sets DEPTH to n. */
  lemma RunDepthLine(v: Variant, s: ParserState, n: nat, rest: seq<string>)
    ensures Run(v, s, Kinds(v, ["DEPTH=" + ToDecimal(n) + ";"] + rest)) == Run(v, s.(depth := Some(n)), Kinds(v, rest))
  {
    DepthLineKind(v, n);
    RunCons(v, s, "DEPTH=" + ToDecimal(n) + ";", rest, s.(depth := Some(n)));
  }

  /** The radix lines change nothing. */
  lemma RunRadixLines(v: Variant, s: ParserState, rest: seq<string>)
    ensures Run(v, s, Kinds(v, ["ADDRESS_RADIX=HEX;"] + (["DATA_RADIX=HEX;"] + rest))) == Run(v, s, Kinds(v, rest))
  {
    AddressRadixClassify(v);
    DataRadixClassify(v);
    RunCons(v, s, "DATA_RADIX=HEX;", rest, s);
    RunCons(v, s, "ADDRESS_RADIX=HEX;", ["DATA_RADIX=HEX;"] + rest, s);
  }

  /** "CONTENT BEGIN" enters the content. */
  lemma RunBeginLine(v: Variant, s: ParserState, rest: seq<string>)
    ensures Run(v, s, Kinds(v, ["CONTENT BEGIN"] + rest)) == Run(v, s.(inContent := true), Kinds(v, rest))
  {
    BeginLineKind(v);
    RunCons(v, s, "CONTENT BEGIN", rest, s.(inContent := true));
  }

  /** After the header the reader holds both fields as written and is inside the content. */
  lemma RunHeader(v: Variant, pixelBits: nat, depth: nat, rest: seq<string>)
    ensures Run(v, Start, Kinds(v, HeaderLines(pixelBits, depth) + rest))
         == Run(v, ParserState(Some(pixelBits), Some(depth), true, map[]), Kinds(v, rest))
  {
    var l0, l1 := "WIDTH=" + ToDecimal(pixelBits) + ";", "DEPTH=" + ToDecimal(depth) + ";";
    var r2 := ["ADDRESS_RADIX=HEX;"] + (["DATA_RADIX=HEX;"] + (["CONTENT BEGIN"] + rest));
    assert HeaderLines(pixelBits, depth) + rest == [l0] + ([l1] + r2);
    var s1 := Start.(width := Some(pixelBits));
    var s2 := s1.(depth := Some(depth));
    RunWidthLine(v, Start, pixelBits, [l1] + r2);
    RunDepthLine(v, s1, depth, r2);
    RunRadixLines(v, s2, ["CONTENT BEGIN"] + rest);
    RunBeginLine(v, s2, rest);
  }

  /** The value each address has after storing the entries in order over m: the last
      entry for an address wins. */
  function Store(m: map<nat, nat>, es: seq<Entry>): map<nat, nat>
  {
    if es == [] then m else Store(m, es[..|es| - 1])[es[|es| - 1].addr := es[|es| - 1].word]
  }

  /** Inside the content, a data line holding the word x for address a stores it. */
  lemma RunDataWord(v: Variant, s: ParserState, line: string, a: nat, x: nat)
    requires s.inContent && ParseDataLine(line) == Word(a, x)
    ensures Run(v, s, [DataLine(line)]) == Ok(Scan(s.(pixels := s.pixels[a := x]), false))
  {
    StepDataWord(v, s, line, a, x);
    RunOne(v, s, DataLine(line), s.(pixels := s.pixels[a := x]));
  }

  /** Inside the content, the rendered lines of es store the entries, in order, and do
      not stop the reader. */
  lemma {:induction false} RunRender(v: Variant, s: ParserState, es: seq<Entry>)
    requires s.inContent
    ensures Run(v, s, Kinds(v, Render(es))) == Ok(Scan(s.(pixels := Store(s.pixels, es)), false))
    decreases |es|
  {
    if es != [] {
      var front, last := es[..|es| - 1], es[|es| - 1];
      var line := ContentLine(last.addr, last.word);
      var t := s.(pixels := Store(s.pixels, front));
      calc {
        Run(v, s, Kinds(v, Render(es)));
        { KindsAppend(v, Render(front), [line]); }
        Run(v, s, Kinds(v, Render(front)) + Kinds(v, [line]));
        { KindsOne(v, line);
          ContentLineKind(v, last.addr, last.word); }
        Run(v, s, Kinds(v, Render(front)) + [DataLine(line)]);
        { RunAppend(v, s, Kinds(v, Render(front)), [DataLine(line)]);
          RunRender(v, s, front); }
        Run(v, t, [DataLine(line)]);
        { ContentLineField(last.addr, last.word);
          RunDataWord(v, t, line, last.addr, last.word); }
        Ok(Scan(t.(pixels := t.pixels[last.addr := last.word]), false));
      }
    }
  }

  /** Entries whose addresses are their positions store the map from each position to
      its word. */
  lemma {:induction false} StoreIndexed(es: seq<Entry>)
    requires forall k :: 0 <= k < |es| ==> es[k].addr == k
    ensures Store(map[], es) == map k: nat | k < |es| :: es[k].word
    decreases |es|
  {
    if es != [] {
      var front := es[..|es| - 1];
      StoreIndexed(front);
      var m := map k: nat | k < |front| :: front[k].word;
      assert m[|front| := es[|front|].word] == map k: nat | k < |es| :: es[k].word;
    }
  }

  /** The grid as the address-to-value map a reader builds: address k holds the word of
      pixel (k / width, k % width), for every k below the depth. */
  function GridMap(image: seq<seq<nat>>, width: nat): (m: map<nat, nat>)
    requires IsGrid(image, width)
  {
    map k: nat | k < |image| * width :: WordAt(image, width, k)
  }

  /** Storing the writer's entries yields the grid map. */
  lemma ContentStore(image: seq<seq<nat>>, w: nat)
    requires IsGrid(image, w)
    ensures Store(map[], ContentEntries(image, w, |image|)) == GridMap(image, w)
  {
    var es := ContentEntries(image, w, |image|);
    ContentEntriesLength(image, w, |image|);
    forall k | 0 <= k < |es|
      ensures es[k] == Entry(k, WordAt(image, w, k))
    {
      EntryOfAddress(image, w, k);
    }
    StoreIndexed(es);
  }

  /** "END;" stops the reader where it is. */
  lemma RunEndLine(v: Variant, s: ParserState)
    ensures Run(v, s, Kinds(v, ["END;"])) == Ok(Scan(s, true))
  {
    EndLineKind(v);
    KindsOne(v, "END;");
  }

  /** Reading a file the writer produced, with either reader: no failure, WIDTH and DEPTH
      as written, and for each address below the depth exactly the word written for it. */
  lemma WriterReaderRoundTrip(v: Variant, image: seq<seq<nat>>, w: nat, pixelBits: nat)
    requires IsGrid(image, w)
    ensures Parse(v, MifLines(image, w, pixelBits)) == Ok(MifData(Some(pixelBits), Some(|image| * w), GridMap(image, w)))
  {
    var depth := |image| * w;
    var header, es := HeaderLines(pixelBits, depth), ContentEntries(image, w, |image|);
    var body := Render(es);
    var s := ParserState(Some(pixelBits), Some(depth), true, map[]);
    var t := s.(pixels := Store(map[], es));
    assert MifLines(image, w, pixelBits) == header + (body + ["END;"]);
    calc {
      Run(v, Start, Kinds(v, MifLines(image, w, pixelBits)));
      { RunHeader(v, pixelBits, depth, body + ["END;"]); }
      Run(v, s, Kinds(v, body + ["END;"]));
      { KindsAppend(v, body, ["END;"]);
        RunAppend(v, s, Kinds(v, body), Kinds(v, ["END;"])); }
      Continue(v, Run(v, s, Kinds(v, body)), Kinds(v, ["END;"]));
      { RunRender(v, s, es); }
      Run(v, t, Kinds(v, ["END;"]));
      { RunEndLine(v, t); }
      Ok(Scan(t, true));
    }
    ContentStore(image, w);
  }

  /** The grey image placed from the grid map is the grid. */
  lemma GreyPixelsRoundTrip(image: seq<seq<nat>>, w: nat)
    requires IsGrid(image, w)
    ensures forall r, c :: 0 <= r < |image| && 0 <= c < w ==> GreyPixel(GridMap(image, w), w, r, c) == image[r][c]
  {
    AddressBelowDepth(|image|, w);
    forall r, c | 0 <= r < |image| && 0 <= c < w
      ensures GreyPixel(GridMap(image, w), w, r, c) == image[r][c]
    {
      SplitOfAddress(r, c, w);
    }
  }

  /** The grid map holds every address below the depth, with the word written there. */
  lemma GridMapAt(image: seq<seq<nat>>, w: nat, k: nat)
    requires IsGrid(image, w) && k < |image| * w
    ensures k in GridMap(image, w) && GridMap(image, w)[k] == WordAt(image, w, k)
  {
  }

  /** Grey words of at most eight bits fit the reader's uint8 image. */
  lemma GridBytes(image: seq<seq<nat>>, w: nat)
    requires IsGrid(image, w)
    requires forall r, c :: 0 <= r < |image| && 0 <= c < w ==> image[r][c] < 256
    ensures BytesInRange(GridMap(image, w), w, |image|)
  {
    forall k | k in GridMap(image, w) && k < w * |image|
      ensures GridMap(image, w)[k] < 256
    {
      GridByte(image, w, k);
    }
  }

  lemma GridByte(image: seq<seq<nat>>, w: nat, k: nat)
    requires IsGrid(image, w)
    requires forall r, c :: 0 <= r < |image| && 0 <= c < w ==> image[r][c] < 256
    requires k < w * |image|
    ensures k in GridMap(image, w) && GridMap(image, w)[k] < 256
  {
    MulComm(w, |image|);
    GridMapAt(image, w, k);
    WordBound(image, w, k);
  }

  lemma WordBound(image: seq<seq<nat>>, w: nat, k: nat)
    requires IsGrid(image, w)
    requires forall r, c :: 0 <= r < |image| && 0 <= c < w ==> image[r][c] < 256
    requires k < |image| * w
    ensures WordAt(image, w, k) < 256
  {
    RowBound(k, w, |image|);
    DivMod(k, w);
    var r, c := k / w, k % w;
    assert WordAt(image, w, k) == image[r][c];
  }

  lemma MulComm(a: nat, b: nat)
    ensures a * b == b * a
  {
  }

  /** Writing a grey image and reading the file back with the grey reader, at the image's
      own resolution, gives the image back pixel for pixel. */
  method GreyImageRoundTrip(image: seq<seq<nat>>, imageWidth: nat, pixelBits: nat) returns (img: array2<uint8>)
    requires IsGrid(image, imageWidth)
    requires forall r, c :: 0 <= r < |image| && 0 <= c < imageWidth ==> image[r][c] < 256
    ensures img.Length0 == |image| && img.Length1 == imageWidth
    ensures forall r, c :: 0 <= r < |image| && 0 <= c < imageWidth ==> img[r, c] as nat == image[r][c]
  {
    var lines := ImageToGrayscaleMif(image, imageWidth, pixelBits);
    WriterReaderRoundTrip(Grey, image, imageWidth, pixelBits);
    GridBytes(image, imageWidth);
    var result := MifToGrayscaleImage(lines, imageWidth, |image|);
    img := result.value;
    GreyPixelsRoundTrip(image, imageWidth);
  }
}
