/** Hexadecimal and decimal numerals as text: the formatting the MIF writer and the
    ROM emitter use (f"{n:X}", f"{n:02X}", f"{n:04X}", f"{n}") and the parsing the
    MIF reader uses (int(s, 16) and int(re.search(r'\d+', s).group())). */
module Radix {
  import opened Wrappers
  import opened Numerals

  predicate IsDecChar(c: char)
  {
    '0' <= c <= '9'
  }

  predicate IsUpperHexChar(c: char)
  {
    IsDecChar(c) || 'A' <= c <= 'F'
  }

  /** The digits int(s, 16) accepts, in either case. */
  predicate IsHexChar(c: char)
  {
    IsUpperHexChar(c) || 'a' <= c <= 'f'
  }

  /** The upper-case character of a digit below sixteen. */
  function DigitChar(d: nat): (c: char)
    requires d < 16
    ensures IsUpperHexChar(c) && (IsDecChar(c) <==> d < 10)
  {
    if d < 10 then ('0' as int + d) as char else ('A' as int + d - 10) as char
  }

  /** The value of a hexadecimal digit character, in either case. */
  function DigitValue(c: char): (d: nat)
    requires IsHexChar(c)
    ensures d < 16 && (IsDecChar(c) ==> d < 10)
  {
    if IsDecChar(c) then c as int - '0' as int
    else if 'A' <= c <= 'F' then c as int - 'A' as int + 10
    else c as int - 'a' as int + 10
  }

  /** The characters of a digit list. */
  function Numeral(ds: seq<nat>): (s: string)
    requires DigitsBelow(ds, 16)
    ensures |s| == |ds|
  {
    seq(|ds|, i requires 0 <= i < |ds| => DigitChar(ds[i]))
  }

  /** The digit list of a string of digit characters. */
  function DigitValues(s: string): (ds: seq<nat>)
    requires forall i :: 0 <= i < |s| ==> IsHexChar(s[i])
    ensures |ds| == |s| && DigitsBelow(ds, 16)
  {
    seq(|s|, i requires 0 <= i < |s| => DigitValue(s[i]))
  }

  /** Reading the characters of a digit list back gives the digits. */
  lemma ValuesOfNumeral(ds: seq<nat>)
    requires DigitsBelow(ds, 16)
    ensures forall i :: 0 <= i < |ds| ==> IsUpperHexChar(Numeral(ds)[i])
    ensures DigitValues(Numeral(ds)) == ds
  {
    var s := Numeral(ds);
    assert forall i :: 0 <= i < |ds| ==> DigitValue(s[i]) == ds[i];
  }

  predicate IsHexString(s: string)
  {
    s != [] && forall i :: 0 <= i < |s| ==> IsHexChar(s[i])
  }

  /** int(s, 16) on an already stripped string: defined exactly on nonempty strings of
      hexadecimal digits, upper or lower case. */
  function ParseHex(s: string): (r: Option<nat>)
    ensures r.Some? <==> IsHexString(s)
  {
    if IsHexString(s) then Some(FromDigits(DigitValues(s), 16)) else None
  }

  /** n written in the given base, most significant digit first, without leading zeros
      ("0" for zero). */
  function Spell(n: nat, base: nat): (s: string)
    requires 2 <= base <= 16
    ensures |s| >= 1 && forall i :: 0 <= i < |s| ==> IsUpperHexChar(s[i]) && (base <= 10 ==> IsDecChar(s[i]))
    ensures n > 0 ==> s[0] != '0'
    decreases n
  {
    if n < base then [DigitChar(n)]
    else
      DivShrinks(n, base);
      Spell(n / base, base) + [DigitChar(n % base)]
  }

  /** Spell writes out exactly the digits of ToDigits. */
  lemma {:induction false} SpellDigits(n: nat, base: nat)
    requires 2 <= base <= 16
    ensures Spell(n, base) == Numeral(ToDigits(n, base))
    decreases n
  {
    if n >= base {
      DivShrinks(n, base);
      SpellDigits(n / base, base);
      var front := ToDigits(n / base, base);
      assert Numeral(front + [n % base]) == Numeral(front) + [DigitChar(n % base)];
    }
  }

  /** Reading the digits of Spell(n, base) back in that base gives n. */
  lemma SpellValue(n: nat, base: nat)
    requires 2 <= base <= 16
    ensures FromDigits(DigitValues(Spell(n, base)), base) == n
  {
    SpellDigits(n, base);
    ValuesOfNumeral(ToDigits(n, base));
    ToDigitsValue(n, base);
  }

  /** f"{n:X}": upper-case hexadecimal without padding. */
  function ToHex(n: nat): (s: string)
    ensures |s| >= 1 && forall i :: 0 <= i < |s| ==> IsUpperHexChar(s[i])
    ensures n > 0 ==> s[0] != '0'
  {
    Spell(n, 16)
  }

  /** int(f"{n:X}", 16) == n. */
  lemma ToHexParses(n: nat)
    ensures ParseHex(ToHex(n)) == Some(n)
  {
    SpellValue(n, 16);
  }

  /** k '0' characters. */
  function ZeroChars(k: nat): (z: string)
    ensures |z| == k && forall i :: 0 <= i < k ==> z[i] == '0'
  {
    if k == 0 then [] else ['0'] + ZeroChars(k - 1)
  }

  /** f"{n:0wX}": ToHex(n) with '0' characters in front up to w characters. */
  function PadHex(n: nat, w: nat): (s: string)
    ensures |s| == if |ToHex(n)| < w then w else |ToHex(n)|
    ensures forall i :: 0 <= i < |s| ==> IsUpperHexChar(s[i])
    ensures s[|s| - |ToHex(n)|..] == ToHex(n)
    ensures forall i :: 0 <= i < |s| - |ToHex(n)| ==> s[i] == '0'
  {
    var h := ToHex(n);
    var s := ZeroChars(if |h| < w then w - |h| else 0) + h;
    assert s[|s| - |h|..] == h;
    s
  }

  /** The padding does not change the value read back: int(f"{n:0wX}", 16) == n. */
  lemma PadHexParses(n: nat, w: nat)
    ensures ParseHex(PadHex(n, w)) == Some(n)
  {
    var ds := ToDigits(n, 16);
    var pad := if |ds| < w then w - |ds| else 0;
    PadHexDigits(n, w);
    ParseNumeral(Zeros(pad) + ds);
    LeadingZeros(pad, ds, 16);
    ToDigitsValue(n, 16);
  }

  /** The characters of PadHex(n, w) are the digits of n behind the padding zeros. */
  lemma PadHexDigits(n: nat, w: nat)
    ensures var ds := ToDigits(n, 16);
      PadHex(n, w) == Numeral(Zeros(if |ds| < w then w - |ds| else 0) + ds)
  {
    var ds := ToDigits(n, 16);
    var pad := if |ds| < w then w - |ds| else 0;
    SpellDigits(n, 16);
    NumeralAppend(Zeros(pad), ds);
    ZeroNumeral(pad);
  }

  lemma NumeralAppend(a: seq<nat>, b: seq<nat>)
    requires DigitsBelow(a, 16) && DigitsBelow(b, 16)
    ensures DigitsBelow(a + b, 16) && Numeral(a + b) == Numeral(a) + Numeral(b)
  {
  }

  lemma ZeroNumeral(k: nat)
    ensures DigitsBelow(Zeros(k), 16) && Numeral(Zeros(k)) == ZeroChars(k)
  {
  }

  /** A nonempty numeral is read back as the value of its digits. */
  lemma ParseNumeral(ds: seq<nat>)
    requires ds != [] && DigitsBelow(ds, 16)
    ensures ParseHex(Numeral(ds)) == Some(FromDigits(ds, 16))
  {
    ValuesOfNumeral(ds);
  }

  /** A value below 16^w is printed in exactly w characters. */
  lemma PadHexWidth(n: nat, w: nat)
    requires w >= 1 && n < Pow(16, w)
    ensures |PadHex(n, w)| == w
  {
    SpellDigits(n, 16);
    DigitsLength(n, 16, w);
  }

  /** f"{n}": decimal without padding. */
  function ToDecimal(n: nat): (s: string)
    ensures |s| >= 1 && forall i :: 0 <= i < |s| ==> IsDecChar(s[i])
  {
    Spell(n, 10)
  }

  /** The longest prefix of s made of decimal digits. */
  function DigitRun(s: string): (r: string)
    ensures |r| <= |s| && r == s[..|r|]
    ensures forall i :: 0 <= i < |r| ==> IsDecChar(r[i])
    ensures |r| == |s| || !IsDecChar(s[|r|])
    decreases |s|
  {
    if s != [] && IsDecChar(s[0]) then [s[0]] + DigitRun(s[1..]) else []
  }

  /** int(re.search(r'\d+', s).group()): the value of the first maximal run of decimal
      digits in s; None when s has no digit, where the search finds no match. */
  function FirstNumber(s: string): Option<nat>
    decreases |s|
  {
    if s == [] then None
    else if IsDecChar(s[0]) then Some(FromDigits(DigitValues(DigitRun(s)), 10))
    else FirstNumber(s[1..])
  }

  /** The search fails exactly when the string has no decimal digit. */
  lemma {:induction false} FirstNumberNone(s: string)
    ensures FirstNumber(s).None? <==> forall i :: 0 <= i < |s| ==> !IsDecChar(s[i])
    decreases |s|
  {
    if s != [] && !IsDecChar(s[0]) {
      FirstNumberNone(s[1..]);
      assert forall i :: 1 <= i < |s| ==> s[i] == s[1..][i - 1];
    }
  }

  /** A digit run ended by a non-digit is the whole run. */
  lemma {:induction false} DigitRunOf(d: string, t: string)
    requires forall i :: 0 <= i < |d| ==> IsDecChar(d[i])
    requires t == [] || !IsDecChar(t[0])
    ensures DigitRun(d + t) == d
    decreases |d|
  {
    if d == [] {
      assert d + t == t;
    } else {
      assert (d + t)[0] == d[0] && (d + t)[1..] == d[1..] + t;
      DigitRunOf(d[1..], t);
    }
  }

  /** A header field "<letters>=<n><non-digit>...": the first number found is n. */
  lemma {:induction false} FirstNumberOfField(p: string, n: nat, t: string)
    requires forall i :: 0 <= i < |p| ==> !IsDecChar(p[i])
    requires t == [] || !IsDecChar(t[0])
    ensures FirstNumber(p + ToDecimal(n) + t) == Some(n)
    decreases |p|
  {
    var d := ToDecimal(n);
    if p == [] {
      assert p + d + t == d + t;
      DigitRunOf(d, t);
      SpellValue(n, 10);
    } else {
      assert (p + d + t)[1..] == p[1..] + d + t;
      FirstNumberOfField(p[1..], n, t);
    }
  }
}
