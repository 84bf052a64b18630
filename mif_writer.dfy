/** The grey-scale MIF writer: a fixed header, one "ADDR:VALUE;" line per pixel in
    row-major order, and a closing "END;". The quantisation of RGB pixels to grey words
    happens before this point; the writer takes the grid of grey words as given. */
module MifWriter {
  import opened Numerals
  import opened Radix
  import opened Raster

  /** An image of |image| rows, each `width` words long. */
  predicate IsGrid(image: seq<seq<nat>>, width: nat)
  {
    forall i :: 0 <= i < |image| ==> |image[i]| == width
  }

  /** The grey word stored at linear address k. */
  function WordAt(image: seq<seq<nat>>, width: nat, k: nat): nat
    requires IsGrid(image, width) && k < |image| * width
  {
    RowBound(k, width, |image|);
    image[k / width][k % width]
  }

  /** The five header lines for words of `pixelBits` bits and `depth` words. */
  function HeaderLines(pixelBits: nat, depth: nat): seq<string>
  {
    [ "WIDTH=" + ToDecimal(pixelBits) + ";",
      "DEPTH=" + ToDecimal(depth) + ";",
      "ADDRESS_RADIX=HEX;",
      "DATA_RADIX=HEX;",
      "CONTENT BEGIN" ]
  }

  /** f"{address:X}:{value:02X};" */
  function ContentLine(addr: nat, value: nat): string
  {
    ToHex(addr) + ":" + PadHex(value, 2) + ";"
  }

  /** One memory word of the file: its address and its value. */
  datatype Entry = Entry(addr: nat, word: nat)

  /** The entries of row i for its first j pixels, in column order. */
  function RowEntries(image: seq<seq<nat>>, width: nat, i: nat, j: nat): (es: seq<Entry>)
    requires IsGrid(image, width) && i < |image| && j <= width
    ensures |es| == j
  {
    if j == 0 then [] else RowEntries(image, width, i, j - 1) + [Entry(Address(i, j - 1, width), image[i][j - 1])]
  }

  /** The entries of the first i rows, row after row. */
  function ContentEntries(image: seq<seq<nat>>, width: nat, i: nat): (es: seq<Entry>)
    requires IsGrid(image, width) && i <= |image|
  {
    if i == 0 then [] else ContentEntries(image, width, i - 1) + RowEntries(image, width, i - 1, width)
  }

  /** One content line per entry, in order. */
  function Render(es: seq<Entry>): (lines: seq<string>)
    ensures |lines| == |es|
  {
    if es == [] then [] else Render(es[..|es| - 1]) + [ContentLine(es[|es| - 1].addr, es[|es| - 1].word)]
  }

  /** The whole file, line by line (each line written with a trailing newline). */
  function MifLines(image: seq<seq<nat>>, width: nat, pixelBits: nat): seq<string>
    requires IsGrid(image, width)
  {
    HeaderLines(pixelBits, |image| * width) + Render(ContentEntries(image, width, |image|)) + ["END;"]
  }

  /** image_to_grayscale_mif after quantisation: writes the header, then the pixels row by
      row, then "END;". */
  method ImageToGrayscaleMif(image: seq<seq<nat>>, imageWidth: nat, pixelBits: nat) returns (lines: seq<string>)
    requires IsGrid(image, imageWidth)
    ensures lines == MifLines(image, imageWidth, pixelBits)
  {
    var imageHeight := |image|;
    var depth := imageHeight * imageWidth;
    lines := [ "WIDTH=" + ToDecimal(pixelBits) + ";",
               "DEPTH=" + ToDecimal(depth) + ";",
               "ADDRESS_RADIX=HEX;",
               "DATA_RADIX=HEX;",
               "CONTENT BEGIN" ];
    for i := 0 to imageHeight
      invariant lines == HeaderLines(pixelBits, depth) + Render(ContentEntries(image, imageWidth, i))
    {
      lines := AppendRow(image, imageWidth, i, lines);
      RenderAppend(ContentEntries(image, imageWidth, i), RowEntries(image, imageWidth, i, imageWidth));
      AppendAssoc(HeaderLines(pixelBits, depth), Render(ContentEntries(image, imageWidth, i)),
                  Render(RowEntries(image, imageWidth, i, imageWidth)));
    }
    lines := lines + ["END;"];
  }

  /** The inner loop of image_to_grayscale_mif: appends the lines of row i, column by column. */
  method AppendRow(image: seq<seq<nat>>, imageWidth: nat, i: nat, before: seq<string>) returns (lines: seq<string>)
    requires IsGrid(image, imageWidth) && i < |image|
    ensures lines == before + Render(RowEntries(image, imageWidth, i, imageWidth))
  {
    lines := before;
    for j := 0 to imageWidth
      invariant lines == before + Render(RowEntries(image, imageWidth, i, j))
    {
      var pixelValue := image[i][j];
      var address := i * imageWidth + j;
      RenderSnoc(RowEntries(image, imageWidth, i, j), Entry(address, pixelValue));
      AppendAssoc(before, Render(RowEntries(image, imageWidth, i, j)), [ContentLine(address, pixelValue)]);
      lines := lines + [ContentLine(address, pixelValue)];
    }
  }

  lemma AppendAssoc(a: seq<string>, b: seq<string>, c: seq<string>)
    ensures (a + b) + c == a + (b + c)
  {
  }

  lemma IndexInAppend<T>(a: seq<T>, b: seq<T>, k: nat)
    requires k < |a| + |b|
    ensures (a + b)[k] == if k < |a| then a[k] else b[k - |a|]
  {
  }

  /** Rendering one more entry appends its line. */
  lemma RenderSnoc(es: seq<Entry>, e: Entry)
    ensures Render(es + [e]) == Render(es) + [ContentLine(e.addr, e.word)]
  {
    assert (es + [e])[..|es|] == es;
  }

  /** Rendering is line by line: the lines of a + b are those of a, then those of b. */
  lemma {:induction false} RenderAppend(a: seq<Entry>, b: seq<Entry>)
    ensures Render(a + b) == Render(a) + Render(b)
    decreases |b|
  {
    if b == [] {
      assert a + b == a;
    } else {
      var front, last := b[..|b| - 1], b[|b| - 1];
      assert a + b == (a + front) + [last];
      assert b == front + [last];
      RenderAppend(a, front);
      RenderSnoc(a + front, last);
      RenderSnoc(front, last);
    }
  }

  /** The k-th line renders the k-th entry. */
  lemma {:induction false} RenderAt(es: seq<Entry>, k: nat)
    requires k < |es|
    ensures Render(es)[k] == ContentLine(es[k].addr, es[k].word)
    decreases |es|
  {
    if k < |es| - 1 {
      RenderAt(es[..|es| - 1], k);
    }
  }

  /** The k-th entry of row i is pixel (i, k) at its address. */
  lemma {:induction false} RowEntriesAt(image: seq<seq<nat>>, w: nat, i: nat, j: nat, k: nat)
    requires IsGrid(image, w) && i < |image| && k < j <= w
    ensures RowEntries(image, w, i, j)[k] == Entry(Address(i, k, w), image[i][k])
  {
    if k < j - 1 {
      RowEntriesAt(image, w, i, j - 1, k);
    }
  }

  /** The first n rows hold Address(n, 0, w) = n * w entries. */
  lemma {:induction false} ContentEntriesLength(image: seq<seq<nat>>, w: nat, n: nat)
    requires IsGrid(image, w) && n <= |image|
    ensures |ContentEntries(image, w, n)| == Address(n, 0, w)
  {
    if n > 0 {
      ContentEntriesLength(image, w, n - 1);
    }
  }

  /** Among the first n rows, the entry at position Address(r, c) is pixel (r, c). */
  lemma {:induction false} ContentEntriesAt(image: seq<seq<nat>>, w: nat, n: nat, r: nat, c: nat)
    requires IsGrid(image, w) && r < n <= |image| && c < w
    ensures Address(r, c, w) < Address(n, 0, w) == |ContentEntries(image, w, n)|
    ensures ContentEntries(image, w, n)[Address(r, c, w)] == Entry(Address(r, c, w), image[r][c])
  {
    ContentEntriesLength(image, w, n - 1);
    ContentEntriesLength(image, w, n);
    var front, row := ContentEntries(image, w, n - 1), RowEntries(image, w, n - 1, w);
    NextRow(n - 1, w);
    if r < n - 1 {
      ContentEntriesAt(image, w, n - 1, r, c);
    } else {
      RowEntriesAt(image, w, r, w, c);
    }
    IndexInAppend(front, row, Address(r, c, w));
  }

  /** The k-th entry of the file is address k with the word at k, for every k below the depth:
      the content is exactly the addresses 0 .. depth - 1, in increasing order. */
  lemma EntryOfAddress(image: seq<seq<nat>>, w: nat, k: nat)
    requires IsGrid(image, w) && k < |image| * w
    ensures |ContentEntries(image, w, |image|)| == |image| * w
    ensures ContentEntries(image, w, |image|)[k] == Entry(k, WordAt(image, w, k))
  {
    RowBound(k, w, |image|);
    DivMod(k, w);
    ContentEntriesAt(image, w, |image|, k / w, k % w);
  }

  /** The layout of the file: the five header lines, then at offset 5 + k the line with
      address k holding the word at k (the pixel (k / w, k % w)), and "END;" last. */
  lemma MifLinesShape(image: seq<seq<nat>>, w: nat, pixelBits: nat)
    requires IsGrid(image, w)
    ensures var lines := MifLines(image, w, pixelBits);
      && |lines| == |image| * w + 6
      && lines[..5] == [ "WIDTH=" + ToDecimal(pixelBits) + ";",
                         "DEPTH=" + ToDecimal(|image| * w) + ";",
                         "ADDRESS_RADIX=HEX;", "DATA_RADIX=HEX;", "CONTENT BEGIN" ]
      && (forall k :: 0 <= k < |image| * w ==> lines[5 + k] == ContentLine(k, WordAt(image, w, k)))
      && lines[|lines| - 1] == "END;"
  {
    ContentEntriesLength(image, w, |image|);
    forall k | 0 <= k < |image| * w
      ensures MifLines(image, w, pixelBits)[5 + k] == ContentLine(k, WordAt(image, w, k))
    {
      MifLineOfAddress(image, w, pixelBits, k);
    }
  }

  lemma MifLineOfAddress(image: seq<seq<nat>>, w: nat, pixelBits: nat, k: nat)
    requires IsGrid(image, w) && k < |image| * w
    ensures 5 + k < |MifLines(image, w, pixelBits)|
    ensures MifLines(image, w, pixelBits)[5 + k] == ContentLine(k, WordAt(image, w, k))
  {
    var header, es := HeaderLines(pixelBits, |image| * w), ContentEntries(image, w, |image|);
    EntryOfAddress(image, w, k);
    RenderAt(es, k);
    IndexInAppend(header, Render(es), 5 + k);
    IndexInAppend(header + Render(es), ["END;"], 5 + k);
  }

  /** The line of pixel (i, j) sits right after the header, at offset 5 + i*w + j, and
      carries that address and image[i][j]. */
  lemma MifLinesAt(image: seq<seq<nat>>, w: nat, pixelBits: nat, i: nat, j: nat)
    requires IsGrid(image, w) && i < |image| && j < w
    ensures 5 + i * w + j < |MifLines(image, w, pixelBits)|
    ensures MifLines(image, w, pixelBits)[5 + i * w + j] == ContentLine(i * w + j, image[i][j])
  {
    var header, es := HeaderLines(pixelBits, |image| * w), ContentEntries(image, w, |image|);
    ContentEntriesAt(image, w, |image|, i, j);
    RenderAt(es, i * w + j);
    IndexInAppend(header, Render(es), 5 + i * w + j);
    IndexInAppend(header + Render(es), ["END;"], 5 + i * w + j);
  }

  /** A word below 256 is written as exactly two hexadecimal digits. */
  lemma ByteFieldWidth(value: nat)
    requires value < 256
    ensures |PadHex(value, 2)| == 2
  {
    assert Pow(16, 2) == 256;
    PadHexWidth(value, 2);
  }
}
