/**
 * The locale-independent character classifiers and fixed-width digit
 * decoders that common/util.h defines as macros.
 *
 * A C pointer p into a NUL-terminated buffer is modelled as the buffer's
 * contents s (without the terminator) and an offset i, so that `*(p + k)`
 * is Deref(s, i + k); the offset |s| reads the terminating NUL. The
 * decoders are specified against the positional value of module Numerals
 * and are proved to invert its zero-padded rendering.
 */
module Util {
  import opened Numerals

  const NUL: char := '\0'

  /** The characters the C locale's isspace() accepts: blank, tab, line
      feed, vertical tab, form feed and carriage return. */
  function CLocaleSpace(): set<char> {
    {' ', '\t', '\n', '\U{B}', '\U{C}', '\r'}
  }

  /** `*(p)` for p = s + i on the NUL-terminated buffer holding s. */
  function Deref(s: string, i: nat): char
    requires i <= |s|
  {
    if i < |s| then s[i] else NUL
  }

  // ---------------------------------------------------------------------
  // Classifiers
  // ---------------------------------------------------------------------

  /** spacep: a blank (space or horizontal tab), never a line break. */
  function SpaceP(s: string, i: nat): (r: bool)
    requires i <= |s|
    ensures r <==> AsciiIsSpace(Deref(s, i)) && Deref(s, i) != '\n' && Deref(s, i) != '\r'
    ensures i == |s| ==> !r
  {
    Deref(s, i) == ' ' || Deref(s, i) == '\t'
  }

  /** digitp: one of the ten decimal digits. */
  function DigitP(s: string, i: nat): (r: bool)
    requires i <= |s|
    ensures r <==> Decimal.IsDigit(Deref(s, i))
    ensures i == |s| ==> !r
  {
    Deref(s, i) >= '0' && Deref(s, i) <= '9'
  }

  /** hexdigitp: a decimal digit or a letter A-F in either case. */
  function HexDigitP(s: string, i: nat): (r: bool)
    requires i <= |s|
    ensures r <==> Hex.IsDigit(Deref(s, i))
    ensures DigitP(s, i) ==> r
    ensures i == |s| ==> !r
  {
    DigitP(s, i)
    || (Deref(s, i) >= 'A' && Deref(s, i) <= 'F')
    || (Deref(s, i) >= 'a' && Deref(s, i) <= 'f')
  }

  /** ascii_isspace: the C locale's white space minus form feed and
      vertical tab. */
  function AsciiIsSpace(c: char): (r: bool)
    ensures r <==> c in CLocaleSpace() && c != '\U{C}' && c != '\U{B}'
  {
    c == ' ' || c == '\n' || c == '\r' || c == '\t'
  }

  // ---------------------------------------------------------------------
  // Decoders; the caller guarantees that every character read is a digit
  // ---------------------------------------------------------------------

  /** atoi_1: the value of one decimal digit. */
  function Atoi1(s: string, i: nat): (r: int)
    requires i < |s| && DigitP(s, i)
    ensures 0 <= r <= 9 && r == Decimal.DigitValue(s[i])
  {
    DecimalDigitValue(Decimal, s[i]);
    s[i] as int - '0' as int
  }

  /** atoi_2: the value of two decimal digits. */
  function Atoi2(s: string, i: nat): (r: int)
    requires i + 2 <= |s| && forall k | i <= k < i + 2 :: DigitP(s, k)
    ensures Decimal.IsNumeral(s[i..i + 2])
    ensures 0 <= r <= 99 && r == Decimal.Value(s[i..i + 2])
  {
    var hi, lo := Atoi1(s, i), Atoi1(s, i + 1);
    PairValue(Decimal, s, i);
    hi * 10 + lo
  }

  /** atoi_4: the value of four decimal digits. */
  function Atoi4(s: string, i: nat): (r: int)
    requires i + 4 <= |s| && forall k | i <= k < i + 4 :: DigitP(s, k)
    ensures Decimal.IsNumeral(s[i..i + 4])
    ensures 0 <= r <= 9999 && r == Decimal.Value(s[i..i + 4])
  {
    var hi, lo := Atoi2(s, i), Atoi2(s, i + 2);
    QuadValue(Decimal, s, i);
    hi * 100 + lo
  }

  /** xtoi_1: the value of one hexadecimal digit of either case. The
      comparison chain is only meaningful for hexadecimal digits. */
  function Xtoi1(s: string, i: nat): (r: int)
    requires i < |s| && HexDigitP(s, i)
    ensures 0 <= r <= 15 && r == Hex.DigitValue(s[i])
  {
    if s[i] <= '9' then
      DecimalDigitValue(Hex, s[i]);
      s[i] as int - '0' as int
    else if s[i] <= 'F' then
      HexLetterValue(s[i]);
      s[i] as int - 'A' as int + 10
    else
      HexLetterValue(s[i]);
      s[i] as int - 'a' as int + 10
  }

  /** xtoi_2: the value of two hexadecimal digits, i.e. one byte. */
  function Xtoi2(s: string, i: nat): (r: int)
    requires i + 2 <= |s| && forall k | i <= k < i + 2 :: HexDigitP(s, k)
    ensures Hex.IsNumeral(s[i..i + 2])
    ensures 0 <= r <= 255 && r == Hex.Value(s[i..i + 2])
  {
    var hi, lo := Xtoi1(s, i), Xtoi1(s, i + 1);
    PairValue(Hex, s, i);
    hi * 16 + lo
  }

  /** xtoi_4: the value of four hexadecimal digits. */
  function Xtoi4(s: string, i: nat): (r: int)
    requires i + 4 <= |s| && forall k | i <= k < i + 4 :: HexDigitP(s, k)
    ensures Hex.IsNumeral(s[i..i + 4])
    ensures 0 <= r <= 65535 && r == Hex.Value(s[i..i + 4])
  {
    var hi, lo := Xtoi2(s, i), Xtoi2(s, i + 2);
    QuadValue(Hex, s, i);
    hi * 256 + lo
  }

  // ---------------------------------------------------------------------
  // Properties relating the decoders to each other and to rendering
  // ---------------------------------------------------------------------

  /** Every character of a zero-padded rendering passes the classifier of
      its radix. */
  lemma RenderClassified(radix: Radix, n: nat, width: nat, upper: bool)
    requires n < radix.Limit(width)
    ensures forall k | 0 <= k < width :: HexDigitP(radix.Render(n, width, upper), k)
    ensures radix.Decimal? ==> forall k | 0 <= k < width :: DigitP(radix.Render(n, width, upper), k)
  {
    var t := radix.Render(n, width, upper);
    ValueOfRender(radix, n, width, upper);
    forall k | 0 <= k < width ensures HexDigitP(t, k) && (radix.Decimal? ==> DigitP(t, k)) {
      assert radix.IsDigit(t[k]);
      if radix.Hex? {
        assert Hex.IsDigit(Deref(t, k));
      } else {
        DecimalDigitIsHex(t[k]);
      }
    }
  }

  /** A decimal digit is a hexadecimal digit too: the character-level form
      of HexDigitP's clause `DigitP(s, i) ==> r`, used by RenderClassified on
      the characters of a rendering. */
  lemma DecimalDigitIsHex(c: char)
    requires Decimal.IsDigit(c)
    ensures Hex.IsDigit(c)
  {
    assert DigitP([c], 0);
  }

  /** Writing n <= 99 as two zero-padded decimal digits and applying atoi_2
      gives n back. */
  lemma Atoi2RoundTrip(n: nat)
    requires n <= 99
    ensures var t := Decimal.Render(n, 2, true);
      (forall k | 0 <= k < 2 :: DigitP(t, k)) && Atoi2(t, 0) == n
  {
    var t := Decimal.Render(n, 2, true);
    assert Decimal.Limit(2) == 100;
    RenderClassified(Decimal, n, 2, true);
    assert forall k | 0 <= k < 2 :: DigitP(t, k);
    ValueOfRender(Decimal, n, 2, true);
    assert t[0..2] == t;
    assert Atoi2(t, 0) == Decimal.Value(t);
  }

  /** Writing n <= 9999 as four zero-padded decimal digits and applying
      atoi_4 gives n back. */
  lemma Atoi4RoundTrip(n: nat)
    requires n <= 9999
    ensures var t := Decimal.Render(n, 4, true);
      (forall k | 0 <= k < 4 :: DigitP(t, k)) && Atoi4(t, 0) == n
  {
    var t := Decimal.Render(n, 4, true);
    assert Decimal.Limit(4) == 10000;
    RenderClassified(Decimal, n, 4, true);
    assert forall k | 0 <= k < 4 :: DigitP(t, k);
    ValueOfRender(Decimal, n, 4, true);
    assert t[0..4] == t;
    assert Atoi4(t, 0) == Decimal.Value(t);
  }

  /** Writing a byte as two hexadecimal digits, in either case, and
      applying xtoi_2 gives the byte back. */
  lemma Xtoi2RoundTrip(b: nat, upper: bool)
    requires b <= 255
    ensures var t := Hex.Render(b, 2, upper);
      (forall k | 0 <= k < 2 :: HexDigitP(t, k)) && Xtoi2(t, 0) == b
  {
    var t := Hex.Render(b, 2, upper);
    assert Hex.Limit(2) == 256;
    RenderClassified(Hex, b, 2, upper);
    assert forall k | 0 <= k < 2 :: HexDigitP(t, k);
    ValueOfRender(Hex, b, 2, upper);
    assert t[0..2] == t;
    assert Xtoi2(t, 0) == Hex.Value(t);
  }

  /** Writing n <= 65535 as four hexadecimal digits, in either case, and
      applying xtoi_4 gives n back. */
  lemma Xtoi4RoundTrip(n: nat, upper: bool)
    requires n <= 65535
    ensures var t := Hex.Render(n, 4, upper);
      (forall k | 0 <= k < 4 :: HexDigitP(t, k)) && Xtoi4(t, 0) == n
  {
    var t := Hex.Render(n, 4, upper);
    assert Hex.Limit(4) == 65536;
    RenderClassified(Hex, n, 4, upper);
    assert forall k | 0 <= k < 4 :: HexDigitP(t, k);
    ValueOfRender(Hex, n, 4, upper);
    assert t[0..4] == t;
    assert Xtoi4(t, 0) == Hex.Value(t);
  }

  /** Rendering what atoi_2 decodes at width 2 spells the input again. */
  lemma Atoi2Renders(s: string, i: nat)
    requires i + 2 <= |s| && forall k | i <= k < i + 2 :: DigitP(s, k)
    ensures Decimal.Render(Atoi2(s, i), 2, true) == s[i..i + 2]
  {
    var r := Atoi2(s, i);
    RenderOfValue(Decimal, s[i..i + 2]);
    DecimalUpper(s[i..i + 2]);
  }

  /** Rendering what atoi_4 decodes at width 4 spells the input again. */
  lemma Atoi4Renders(s: string, i: nat)
    requires i + 4 <= |s| && forall k | i <= k < i + 4 :: DigitP(s, k)
    ensures Decimal.Render(Atoi4(s, i), 4, true) == s[i..i + 4]
  {
    var r := Atoi4(s, i);
    RenderOfValue(Decimal, s[i..i + 4]);
    DecimalUpper(s[i..i + 4]);
  }

  /** Rendering what xtoi_2 decodes at width 2 spells the input again, with
      its letters in upper case. */
  lemma Xtoi2Renders(s: string, i: nat)
    requires i + 2 <= |s| && forall k | i <= k < i + 2 :: HexDigitP(s, k)
    ensures Hex.Render(Xtoi2(s, i), 2, true) == AsciiUpperText(s[i..i + 2])
  {
    var r := Xtoi2(s, i);
    RenderOfValue(Hex, s[i..i + 2]);
  }

  /** Rendering what xtoi_4 decodes at width 4 spells the input again, with
      its letters in upper case. */
  lemma Xtoi4Renders(s: string, i: nat)
    requires i + 4 <= |s| && forall k | i <= k < i + 4 :: HexDigitP(s, k)
    ensures Hex.Render(Xtoi4(s, i), 4, true) == AsciiUpperText(s[i..i + 4])
  {
    var r := Xtoi4(s, i);
    RenderOfValue(Hex, s[i..i + 4]);
  }

  /** On a decimal digit xtoi_1 agrees with atoi_1. */
  lemma Xtoi1OfDigit(s: string, i: nat)
    requires i < |s| && DigitP(s, i)
    ensures HexDigitP(s, i) && Xtoi1(s, i) == Atoi1(s, i)
  {
  }

  /** An upper-case letter A-F and its lower-case counterpart decode to the
      same value, 10 to 15. */
  lemma Xtoi1IgnoresCase(d: nat)
    requires 10 <= d <= 15
    ensures var u, l := [UpperHexDigits()[d]], [LowerHexDigits()[d]];
      HexDigitP(u, 0) && HexDigitP(l, 0) && Xtoi1(u, 0) == Xtoi1(l, 0) == d
  {
    var u, l := [UpperHexDigits()[d]], [LowerHexDigits()[d]];
    SymbolValue(Hex, true, d);
    SymbolValue(Hex, false, d);
    assert Hex.IsDigit(Deref(u, 0)) && Hex.IsDigit(Deref(l, 0));
  }

  /** Upper-casing the buffer keeps hexadecimal digits hexadecimal digits. */
  lemma UpperKeepsHexDigits(s: string, i: nat, n: nat)
    requires i + n <= |s| && forall k | i <= k < i + n :: HexDigitP(s, k)
    ensures forall k | i <= k < i + n :: HexDigitP(AsciiUpperText(s), k)
  {
    forall k | i <= k < i + n ensures HexDigitP(AsciiUpperText(s), k) {
      assert HexDigitP(s, k);
      UpperDigit(Hex, s[k]);
    }
  }

  /** xtoi_2 reads the same value from the upper-cased buffer. */
  lemma Xtoi2IgnoresCase(s: string, i: nat)
    requires i + 2 <= |s| && forall k | i <= k < i + 2 :: HexDigitP(s, k)
    ensures var t := AsciiUpperText(s);
      (forall k | i <= k < i + 2 :: HexDigitP(t, k)) && Xtoi2(t, i) == Xtoi2(s, i)
  {
    var t := AsciiUpperText(s);
    var r := Xtoi2(s, i);
    AsciiUpperTextSlice(s, i, i + 2);
    ValueOfUpper(Hex, s[i..i + 2]);
    UpperKeepsHexDigits(s, i, 2);
    assert Xtoi2(t, i) == Hex.Value(t[i..i + 2]) == Hex.Value(s[i..i + 2]);
  }

  /** xtoi_4 reads the same value from the upper-cased buffer. */
  lemma Xtoi4IgnoresCase(s: string, i: nat)
    requires i + 4 <= |s| && forall k | i <= k < i + 4 :: HexDigitP(s, k)
    ensures var t := AsciiUpperText(s);
      (forall k | i <= k < i + 4 :: HexDigitP(t, k)) && Xtoi4(t, i) == Xtoi4(s, i)
  {
    var t := AsciiUpperText(s);
    var r := Xtoi4(s, i);
    AsciiUpperTextSlice(s, i, i + 4);
    ValueOfUpper(Hex, s[i..i + 4]);
    UpperKeepsHexDigits(s, i, 4);
    assert Xtoi4(t, i) == Hex.Value(t[i..i + 4]) == Hex.Value(s[i..i + 4]);
  }
}
