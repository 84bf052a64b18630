/** The RGB reader's view of a memory word: the word packs red, green and blue, blue in
    the lowest bits, and each channel is scaled back to eight bits by 256 / 2^bits.
    The bit operations are written on natural numbers: x & ((1 << k) - 1) is x % 2^k,
    x >> k is x / 2^k and x << k is x * 2^k. */
module RgbChannels {
  import opened Numerals

  /** x & ((1 << bits) - 1): the lowest `bits` bits of x. */
  function LowBits(x: nat, bits: nat): (r: nat)
    ensures r < Pow(2, bits)
  {
    PowPositive(2, bits);
    x % Pow(2, bits)
  }

  /** B = v & B_mask */
  function Blue(v: nat, bBits: nat): (b: nat)
    ensures b < Pow(2, bBits)
  {
    LowBits(v, bBits)
  }

  /** G = (v >> B_bits) & G_mask */
  function Green(v: nat, gBits: nat, bBits: nat): (g: nat)
    ensures g < Pow(2, gBits)
  {
    PowPositive(2, bBits);
    LowBits(v / Pow(2, bBits), gBits)
  }

  /** R = (v >> (B_bits + G_bits)) & R_mask */
  function Red(v: nat, rBits: nat, gBits: nat, bBits: nat): (r: nat)
    ensures r < Pow(2, rBits)
  {
    PowPositive(2, bBits + gBits);
    LowBits(v / Pow(2, bBits + gBits), rBits)
  }

  /** (R << (G_bits + B_bits)) | (G << B_bits) | B, for channels that fit their fields. */
  function Pack(red: nat, green: nat, blue: nat, gBits: nat, bBits: nat): nat
  {
    red * Pow(2, gBits + bBits) + green * Pow(2, bBits) + blue
  }

  /** A field placed above `loBits` low bits stays below 2^(hiBits + loBits). */
  lemma FieldBound(hi: nat, lo: nat, hiBits: nat, loBits: nat)
    requires hi < Pow(2, hiBits) && lo < Pow(2, loBits)
    ensures hi * Pow(2, loBits) + lo < Pow(2, hiBits + loBits)
  {
    PowAdd(2, hiBits, loBits);
    Place(hi, lo, Pow(2, hiBits), Pow(2, loBits));
  }

  /** hi * L + lo < H * L when hi < H and lo < L. */
  lemma Place(hi: nat, lo: nat, h: nat, l: nat)
    requires hi < h && lo < l
    ensures hi * l + lo < h * l
  {
    MulMonotone(hi, h - 1, l);
    assert (h - 1) * l == h * l - l;
  }

  /** The three fields of a word, with field sizes pb (blue), pg (green) and pr (red),
      put back together give the word modulo pr * pg * pb. */
  lemma FieldsRepack(v: nat, pr: nat, pg: nat, pb: nat)
    requires pr > 0 && pg > 0 && pb > 0
    ensures (v / (pb * pg)) % pr * (pg * pb) + (v / pb) % pg * pb + v % pb == v % (pr * (pg * pb))
  {
    var blue, q1 := v % pb, v / pb;
    DivMod(v, pb);
    var green, q2 := q1 % pg, q1 / pg;
    DivMod(q1, pg);
    DivDiv(v, pb, pg);
    var red, q3 := q2 % pr, q2 / pr;
    DivMod(q2, pr);
    var low := green * pb + blue;
    Place(green, blue, pg, pb);
    Regroup(q2, green, pg, blue, pb);
    assert v == q2 * (pg * pb) + low;
    Regroup(q3, red, pr, low, pg * pb);
    Place(red, low, pr, pg * pb);
    DivModUnique(v, pr * (pg * pb), q3, red * (pg * pb) + low);
  }

  lemma Regroup(q: int, x: int, m: int, y: int, n: int)
    ensures (q * m + x) * n + y == q * (m * n) + (x * n + y)
  {
  }

  /** Fields that fit their sizes, packed, are read back unchanged. */
  lemma FieldsUnpack(red: nat, green: nat, blue: nat, pr: nat, pg: nat, pb: nat)
    requires red < pr && green < pg && blue < pb
    ensures var v := red * (pg * pb) + green * pb + blue;
      v % pb == blue && (v / pb) % pg == green && (v / (pb * pg)) % pr == red
  {
    var v := red * (pg * pb) + green * pb + blue;
    var upper := red * pg + green;
    Regroup(red, green, pg, blue, pb);
    DivModUnique(v, pb, upper, blue);
    DivModUnique(upper, pg, red, green);
    DivDiv(v, pb, pg);
    DivModUnique(red, pr, 0, red);
  }

  /** Unpacking then packing keeps the low r+g+b bits of the word: the reader loses only
      the bits above the three fields. */
  lemma PackUnpack(v: nat, rBits: nat, gBits: nat, bBits: nat)
    ensures Pack(Red(v, rBits, gBits, bBits), Green(v, gBits, bBits), Blue(v, bBits), gBits, bBits)
         == LowBits(v, rBits + gBits + bBits)
  {
    PowPositive(2, bBits);
    PowPositive(2, gBits);
    PowPositive(2, rBits);
    PowAdd(2, bBits, gBits);
    PowAdd(2, gBits, bBits);
    PowAdd(2, rBits, gBits + bBits);
    FieldsRepack(v, Pow(2, rBits), Pow(2, gBits), Pow(2, bBits));
    assert rBits + (gBits + bBits) == rBits + gBits + bBits;
  }

  /** Packing channels that fit their fields and unpacking gives the channels back. */
  lemma UnpackPack(red: nat, green: nat, blue: nat, rBits: nat, gBits: nat, bBits: nat)
    requires red < Pow(2, rBits) && green < Pow(2, gBits) && blue < Pow(2, bBits)
    ensures var v := Pack(red, green, blue, gBits, bBits);
      Red(v, rBits, gBits, bBits) == red && Green(v, gBits, bBits) == green && Blue(v, bBits) == blue
  {
    PowAdd(2, bBits, gBits);
    PowAdd(2, gBits, bBits);
    FieldsUnpack(red, green, blue, Pow(2, rBits), Pow(2, gBits), Pow(2, bBits));
  }

  /** int(ch * (256 / 2^bits)): the channel back on the eight-bit scale. For bits <= 8 the
      factor is the whole number 2^(8 - bits); above eight bits it is a fraction and int()
      truncates. */
  function ScaleTo8(ch: nat, bits: nat): nat
  {
    if bits <= 8 then ch * Pow(2, 8 - bits)
    else
      PowPositive(2, bits - 8);
      ch / Pow(2, bits - 8)
  }

  /** A channel that fits its field is stored in one byte. */
  lemma ScaleBound(ch: nat, bits: nat)
    requires ch < Pow(2, bits)
    ensures ScaleTo8(ch, bits) < 256
  {
    if bits <= 8 {
      ScaleUpBound(ch, bits);
    } else {
      ScaleDownBound(ch, bits);
    }
  }

  lemma ScaleUpBound(ch: nat, bits: nat)
    requires bits <= 8
    ensures ch < Pow(2, bits) ==> ch * Pow(2, 8 - bits) < 256
  {
    if ch < Pow(2, bits) {
      PowPositive(2, 8 - bits);
      FieldBound(ch, 0, bits, 8 - bits);
      assert Pow(2, 8) == 256;
    }
  }

  lemma ScaleDownBound(ch: nat, bits: nat)
    requires bits > 8
    ensures Pow(2, bits - 8) > 0
    ensures ch < Pow(2, bits) ==> ch / Pow(2, bits - 8) < 256
  {
    PowPositive(2, bits - 8);
    if ch < Pow(2, bits) {
      PowAdd(2, bits - 8, 8);
      assert Pow(2, 8) == 256;
      RowBound(ch, Pow(2, bits - 8), 256);
    }
  }

  /** For a channel of at most eight bits the scaling loses nothing: the stored byte is a
      multiple of 2^(8 - bits), its low 8 - bits bits are zero, and dividing it by the
      factor gives the channel back. */
  lemma ScaleLossless(ch: nat, bits: nat)
    requires bits <= 8
    ensures Pow(2, 8 - bits) > 0
    ensures ScaleTo8(ch, bits) % Pow(2, 8 - bits) == 0
    ensures ScaleTo8(ch, bits) / Pow(2, 8 - bits) == ch
  {
    PowPositive(2, 8 - bits);
    MulMod(ch, Pow(2, 8 - bits));
  }
}
