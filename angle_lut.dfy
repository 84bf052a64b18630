/** The generator of the Verilog cosine and sine ROM: each table entry is a sample
    written as a 16-bit signed Verilog literal, 16'sh followed by four upper-case
    hexadecimal digits of the sample's two's-complement bit pattern. */
module AngleLut {
  import opened Wrappers
  import opened Numerals
  import opened Radix

  /** The number of one-degree angles, 0 .. 179, and so of entries in each table. */
  const ThetaSteps: nat := 180

  /** numpy's int16: the type of the rounded cosine and sine samples. */
  newtype int16 = x: int | -0x8000 <= x < 0x8000

  const LiteralPrefix: string := "16'sh"
  const Indent: string := "        "

  /** val & 0xFFFF: the 16-bit two's-complement pattern of val (Dafny's % never returns
      a negative number, as Python's & on a negative int does not). */
  function Bits16(val: int16): (u: nat)
    ensures u < 0x10000
    ensures val >= 0 ==> u == val as int
    ensures val < 0 ==> u == val as int + 0x10000
  {
    val as int % 0x10000
  }

  /** The value a Verilog tool gives the 16-bit signed literal with bit pattern u. */
  function Signed16(u: nat): (v: int16)
    requires u < 0x10000
    ensures u < 0x8000 <==> v >= 0
  {
    if u < 0x8000 then u as int16 else (u as int - 0x10000) as int16
  }

  /** The sign reading undoes the bit pattern: every int16 comes back. */
  lemma SignedBits(val: int16)
    ensures Signed16(Bits16(val)) == val
  {
  }

  /** to_hex16: 16'sh and the hexadecimal of val & 0xFFFF, zero-padded to four digits. */
  function ToHex16(val: int16): string
  {
    LiteralPrefix + PadHex(Bits16(val), 4)
  }

  /** Every literal is nine characters: the prefix and exactly four upper-case
      hexadecimal digits, since the pattern is below 16^4. */
  lemma ToHex16Shape(val: int16)
    ensures |ToHex16(val)| == 9 && ToHex16(val)[..5] == LiteralPrefix
    ensures forall i :: 5 <= i < 9 ==> IsUpperHexChar(ToHex16(val)[i])
  {
    assert Pow(16, 4) == 0x10000 by {
      assert Pow(16, 2) == 256;
    }
    PadHexWidth(Bits16(val), 4);
  }

  /** A 16'sh literal read back as a Verilog tool reads it; None for any other string
      or a pattern wider than 16 bits. */
  function ReadLiteral(s: string): (r: Option<int16>)
  {
    if |s| < 5 || s[..5] != LiteralPrefix then None
    else match ParseHex(s[5..])
      case Some(u) => if u < 0x10000 then Some(Signed16(u)) else None
      case None => None
  }

  /** The literal of val reads back as val, so to_hex16 loses nothing on int16. */
  lemma {:induction false} ToHex16RoundTrip(val: int16)
    ensures ReadLiteral(ToHex16(val)) == Some(val)
  {
    var s := ToHex16(val);
    ToHex16Shape(val);
    assert s[5..] == PadHex(Bits16(val), 4);
    PadHexParses(Bits16(val), 4);
    SignedBits(val);
  }

  /** Distinct samples have distinct literals. */
  lemma ToHex16Injective(a: int16, b: int16)
    ensures ToHex16(a) == ToHex16(b) <==> a == b
  {
    if ToHex16(a) == ToHex16(b) {
      ToHex16RoundTrip(a);
      ToHex16RoundTrip(b);
    }
  }

  /** sep: a comma after every entry but the one at index THETA_STEPS - 1. */
  function Separator(i: nat): string
  {
    if i < ThetaSteps - 1 then "," else ""
  }

  /** One line of a table: the indentation, the literal and the separator. */
  function Entry(val: int16, i: nat): string
  {
    Indent + ToHex16(val) + Separator(i)
  }

  /** Where the parts of an entry sit: the literal in columns 8 .. 16, and a comma in
      column 17 exactly when i is not the last index. */
  lemma EntryLayout(val: int16, i: nat)
    ensures |Entry(val, i)| == if i < ThetaSteps - 1 then 18 else 17
    ensures Entry(val, i)[..8] == Indent && Entry(val, i)[8..17] == ToHex16(val)
    ensures i < ThetaSteps - 1 ==> Entry(val, i)[17] == ','
    ensures ReadLiteral(Entry(val, i)[8..17]) == Some(val)
  {
    var e := Entry(val, i);
    ToHex16Shape(val);
    assert e[8..17] == ToHex16(val);
    ToHex16RoundTrip(val);
  }

  /** The loop over the samples of one table (cosine or sine): one entry per sample, in
      order. */
  method EmitTable(samples: seq<int16>) returns (lines: seq<string>)
    ensures |lines| == |samples|
    ensures forall i :: 0 <= i < |samples| ==> lines[i] == Entry(samples[i], i)
  {
    lines := [];
    for i := 0 to |samples|
      invariant |lines| == i
      invariant forall k :: 0 <= k < i ==> lines[k] == Entry(samples[k], k)
    {
      var sep := if i < ThetaSteps - 1 then "," else "";
      var entry := Indent + ToHex16(samples[i]) + sep;
      assert entry == Entry(samples[i], i);
      lines := lines + [entry];
    }
  }

  /** In a table of THETA_STEPS entries every line but the last ends with a comma, so
      the list inside the braces is well formed. */
  lemma OnlyLastEntryBare(samples: seq<int16>, i: nat)
    requires |samples| == ThetaSteps && i < |samples|
    ensures var e := Entry(samples[i], i);
      |e| > 0 && (e[|e| - 1] == ',' <==> i != ThetaSteps - 1)
  {
    EntryLayout(samples[i], i);
    var e := Entry(samples[i], i);
    if i == ThetaSteps - 1 {
      assert e[|e| - 1] == ToHex16(samples[i])[8];
    }
  }

  /** Reading the literal back from each line of the table gives the samples. */
  lemma TableRoundTrip(samples: seq<int16>, lines: seq<string>)
    requires |lines| == |samples| && forall i :: 0 <= i < |samples| ==> lines[i] == Entry(samples[i], i)
    ensures forall i :: 0 <= i < |lines| ==> |lines[i]| >= 17 && ReadLiteral(lines[i][8..17]) == Some(samples[i])
  {
    forall i | 0 <= i < |lines|
      ensures |lines[i]| >= 17 && ReadLiteral(lines[i][8..17]) == Some(samples[i])
    {
      EntryLayout(samples[i], i);
    }
  }
}
