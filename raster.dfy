/** Row-major addressing of a raster image: the pixel in row i, column j of an image
    w pixels wide lives at linear address i*w + j, and an address a < w*h names the pixel
    (a / w, a % w). Both MIF converters use this layout. */
module Raster {
  import opened Numerals

  /** The linear address of the pixel in row i, column j of an image `width` pixels wide:
      i full rows before it, then j pixels of its own row. */
  function Address(i: nat, j: nat, width: nat): nat
  {
    i * width + j
  }

  /** Row-major addresses of the h-by-w grid lie in [0, h*w). */
  lemma AddressBelowDepth(h: nat, w: nat)
    ensures forall i, j :: 0 <= i < h && 0 <= j < w ==> Address(i, j, w) < h * w
  {
    forall i, j | 0 <= i < h && 0 <= j < w
      ensures Address(i, j, w) < h * w
    {
      AddressInRange(i, j, w, h);
    }
  }

  /** Distinct pixels (one row w wide) have distinct addresses. */
  lemma AddressInjective(w: nat)
    ensures forall i1, j1, i2, j2 ::
      0 <= i1 && 0 <= i2 && 0 <= j1 < w && 0 <= j2 < w && Address(i1, j1, w) == Address(i2, j2, w) ==>
      i1 == i2 && j1 == j2
  {
    forall i1, j1, i2, j2 | 0 <= i1 && 0 <= i2 && 0 <= j1 < w && 0 <= j2 < w && Address(i1, j1, w) == Address(i2, j2, w)
      ensures i1 == i2 && j1 == j2
    {
      RowMajorSplit(i1, j1, w);
      RowMajorSplit(i2, j2, w);
    }
  }

  /** Every address in [0, h*w) is the address of pixel (k / w, k % w) of the grid. */
  lemma AddressOnto(h: nat, w: nat)
    ensures forall k :: 0 <= k < h * w ==> k / w < h && k % w < w && Address(k / w, k % w, w) == k
  {
    forall k | 0 <= k < h * w
      ensures k / w < h && k % w < w && Address(k / w, k % w, w) == k
    {
      RowBound(k, w, h);
      DivMod(k, w);
    }
  }

  lemma AddressInRange(i: nat, j: nat, w: nat, h: nat)
    requires i < h && j < w
    ensures i * w + j < h * w
  {
    MulMonotone(i, h - 1, w);
    assert (h - 1) * w == h * w - w;
  }

  /** The rows before row r + 1 are those before row r and row r itself. */
  lemma NextRow(r: nat, w: nat)
    ensures Address(r + 1, 0, w) == Address(r, 0, w) + w
  {
  }

  /** Splitting an address: (k / w, k % w) is the pixel at address k. */
  lemma AddressOfSplit(k: nat, w: nat)
    requires w > 0
    ensures k % w < w && Address(k / w, k % w, w) == k
  {
    DivMod(k, w);
  }

  /** Joining then splitting: the address of (r, c) with c < w splits back into (r, c). */
  lemma SplitOfAddress(r: nat, c: nat, w: nat)
    requires c < w
    ensures Address(r, c, w) / w == r && Address(r, c, w) % w == c
  {
    RowMajorSplit(r, c, w);
  }
}
