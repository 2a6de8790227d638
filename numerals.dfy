/**
 * Fixed-width positional numerals in base 10 and base 16, defined
 * independently of the character arithmetic of common/util.h: the digit
 * symbols of each radix, the value of a digit as its position among them,
 * the positional value of a digit string, and the zero-padded rendering of
 * a number. Module Util specifies its decoders against these definitions.
 */
module Numerals {

  function DecimalDigits(): string { "0123456789" }
  function UpperHexDigits(): string { "0123456789ABCDEF" }
  function LowerHexDigits(): string { "0123456789abcdef" }

  /** ASCII upper-casing: a-z become A-Z, every other character is kept. */
  function AsciiUpper(c: char): char {
    if 'a' <= c <= 'z' then (c as int - 'a' as int + 'A' as int) as char else c
  }

  function AsciiUpperText(s: string): string {
    seq(|s|, k requires 0 <= k < |s| => AsciiUpper(s[k]))
  }

  /** Position of the first occurrence of c in alphabet. */
  function IndexOf(alphabet: string, c: char): (r: nat)
    requires c in alphabet
    ensures r < |alphabet| && alphabet[r] == c
    ensures forall j :: 0 <= j < r ==> alphabet[j] != c
  {
    if alphabet[0] == c then 0 else 1 + IndexOf(alphabet[1..], c)
  }

  /** No symbol occurs twice in a spelling, and the two hexadecimal
      spellings share a symbol only at the same position. */
  lemma DistinctSymbols()
    ensures forall j, k | 0 <= j < 10 && 0 <= k < 10 :: DecimalDigits()[j] == DecimalDigits()[k] ==> j == k
    ensures forall j, k | 0 <= j < 16 && 0 <= k < 16 :: UpperHexDigits()[j] == UpperHexDigits()[k] ==> j == k
    ensures forall j, k | 0 <= j < 16 && 0 <= k < 16 :: LowerHexDigits()[j] == LowerHexDigits()[k] ==> j == k
    ensures forall j, k | 0 <= j < 16 && 0 <= k < 16 :: UpperHexDigits()[j] == LowerHexDigits()[k] ==> j == k
  {
  }

  /** Upper-casing maps each spelling onto the upper-case one. */
  lemma UpperSymbols()
    ensures forall d | 0 <= d < 10 :: AsciiUpper(DecimalDigits()[d]) == DecimalDigits()[d]
    ensures forall d | 0 <= d < 16 :: AsciiUpper(UpperHexDigits()[d]) == UpperHexDigits()[d]
    ensures forall d | 0 <= d < 16 :: AsciiUpper(LowerHexDigits()[d]) == UpperHexDigits()[d]
  {
  }

  datatype Radix = Decimal | Hex {

    function Base(): nat {
      if Decimal? then 10 else 16
    }

    // Multiplication, quotient and remainder by the base, written per radix
    // so that the divisor or factor is always a literal.

    function Scale(v: nat): nat {
      if Decimal? then 10 * v else 16 * v
    }

    function Quot(n: nat): nat {
      if Decimal? then n / 10 else n / 16
    }

    function Rem(n: nat): nat {
      if Decimal? then n % 10 else n % 16
    }

    /** Base raised to the power width: the count of numerals of that width. */
    function Limit(width: nat): nat {
      if width == 0 then 1 else Scale(Limit(width - 1))
    }

    /** v followed by k zero digits. */
    function Shift(v: nat, k: nat): nat {
      if k == 0 then v else Scale(Shift(v, k - 1))
    }

    /** The digit symbols; hexadecimal has an upper-case and a lower-case set. */
    function Alphabet(upper: bool): (a: string)
      ensures |a| == Base()
    {
      if Decimal? then DecimalDigits() else if upper then UpperHexDigits() else LowerHexDigits()
    }

    predicate IsDigit(c: char) {
      c in Alphabet(true) || c in Alphabet(false)
    }

    /** The value of one digit, whichever spelling it uses. */
    function DigitValue(c: char): (d: nat)
      requires IsDigit(c)
      ensures d < Base()
      ensures Alphabet(true)[d] == c || Alphabet(false)[d] == c
    {
      if c in Alphabet(true) then IndexOf(Alphabet(true), c) else IndexOf(Alphabet(false), c)
    }

    predicate IsNumeral(s: string) {
      forall k :: 0 <= k < |s| ==> IsDigit(s[k])
    }

    /** Positional value of a digit string, most significant digit first. */
    function Value(s: string): nat
      requires IsNumeral(s)
      decreases |s|
    {
      if s == [] then 0
      else
        var s' := s[..|s| - 1];
        assert IsNumeral(s');
        Scale(Value(s')) + DigitValue(s[|s| - 1])
    }

    /** The low `width` digits of n, zero-padded, most significant first. */
    function Render(n: nat, width: nat, upper: bool): (r: string)
      ensures |r| == width
    {
      if width == 0 then [] else Render(Quot(n), width - 1, upper) + [Alphabet(upper)[Rem(n)]]
    }
  }

  /** Every symbol of an alphabet is a digit whose value is its position. */
  lemma SymbolValue(radix: Radix, upper: bool, d: nat)
    requires d < radix.Base()
    ensures radix.IsDigit(radix.Alphabet(upper)[d])
    ensures radix.DigitValue(radix.Alphabet(upper)[d]) == d
  {
    DistinctSymbols();
  }

  /** The decimal digits '0'..'9' are consecutive code points valued from 0,
      in either radix. */
  lemma DecimalDigitValue(radix: Radix, c: char)
    requires '0' <= c <= '9'
    ensures radix.IsDigit(c) && radix.DigitValue(c) == c as int - '0' as int
  {
    var d := c as int - '0' as int;
    assert radix.Alphabet(true)[d] == c;
    SymbolValue(radix, true, d);
  }

  /** The letters A-F and a-f are consecutive code points valued from 10. */
  lemma HexLetterValue(c: char)
    requires 'A' <= c <= 'F' || 'a' <= c <= 'f'
    ensures Hex.IsDigit(c)
    ensures Hex.DigitValue(c) == if c <= 'F' then c as int - 'A' as int + 10 else c as int - 'a' as int + 10
  {
    var upper := c <= 'F';
    var d := if upper then c as int - 'A' as int + 10 else c as int - 'a' as int + 10;
    assert Hex.Alphabet(upper)[d] == c;
    SymbolValue(Hex, upper, d);
  }

  /** A one-character numeral is worth its digit's value. */
  lemma ValueOfDigit(radix: Radix, c: char)
    requires radix.IsDigit(c)
    ensures radix.IsNumeral([c]) && radix.Value([c]) == radix.DigitValue(c)
  {
    assert [c][..0] == [];
  }

  /** Appending a digit scales the value by the base and adds the digit. */
  lemma ValueSnoc(radix: Radix, s: string, c: char)
    requires radix.IsNumeral(s) && radix.IsDigit(c)
    ensures radix.IsNumeral(s + [c])
    ensures radix.Value(s + [c]) == radix.Scale(radix.Value(s)) + radix.DigitValue(c)
  {
    assert (s + [c])[..|s|] == s;
  }

  /** The inductive step of ValueConcat: one more digit at the end of y. */
  lemma ValueConcatSnoc(radix: Radix, x: string, y: string, c: char)
    requires radix.IsNumeral(x) && radix.IsNumeral(y) && radix.IsDigit(c)
    requires radix.IsNumeral(x + y)
    requires radix.Value(x + y) == radix.Shift(radix.Value(x), |y|) + radix.Value(y)
    ensures radix.IsNumeral(x + (y + [c]))
    ensures radix.Value(x + (y + [c])) == radix.Shift(radix.Value(x), |y| + 1) + radix.Value(y + [c])
  {
    assert x + (y + [c]) == (x + y) + [c];
    ValueSnoc(radix, x + y, c);
    ValueSnoc(radix, y, c);
    var sh := radix.Shift(radix.Value(x), |y|);
    assert radix.Shift(radix.Value(x), |y| + 1) == radix.Scale(sh);
  }

  /** Concatenating numerals shifts the first by the width of the second:
      the rule by which the two-digit and four-digit decoders are built
      from narrower ones. */
  lemma {:induction false} ValueConcat(radix: Radix, x: string, y: string)
    requires radix.IsNumeral(x) && radix.IsNumeral(y)
    ensures radix.IsNumeral(x + y)
    ensures radix.Value(x + y) == radix.Shift(radix.Value(x), |y|) + radix.Value(y)
  {
    if y == [] {
      assert x + y == x;
    } else {
      var y', c := y[..|y| - 1], y[|y| - 1];
      assert y == y' + [c];
      assert radix.IsNumeral(y');
      ValueConcat(radix, x, y');
      ValueConcatSnoc(radix, x, y', c);
    }
  }

  /** Two digits are worth the first scaled by the base plus the second. */
  lemma PairValue(radix: Radix, s: string, i: nat)
    requires i + 2 <= |s| && radix.IsDigit(s[i]) && radix.IsDigit(s[i + 1])
    ensures radix.IsNumeral(s[i..i + 2])
    ensures radix.Value(s[i..i + 2]) == radix.Scale(radix.DigitValue(s[i])) + radix.DigitValue(s[i + 1])
  {
    assert s[i..i + 2] == [s[i]] + [s[i + 1]];
    ValueOfDigit(radix, s[i]);
    ValueSnoc(radix, [s[i]], s[i + 1]);
  }

  /** Four digits are worth the first pair scaled twice by the base plus
      the second pair. */
  lemma QuadValue(radix: Radix, s: string, i: nat)
    requires i + 4 <= |s| && radix.IsNumeral(s[i..i + 2]) && radix.IsNumeral(s[i + 2..i + 4])
    ensures radix.IsNumeral(s[i..i + 4])
    ensures radix.Value(s[i..i + 4]) == radix.Scale(radix.Scale(radix.Value(s[i..i + 2]))) + radix.Value(s[i + 2..i + 4])
  {
    assert s[i..i + 4] == s[i..i + 2] + s[i + 2..i + 4];
    ValueConcat(radix, s[i..i + 2], s[i + 2..i + 4]);
    var v := radix.Value(s[i..i + 2]);
    assert radix.Shift(v, 1) == radix.Scale(v);
  }

  /** Decoding a rendering gives the number back, and the rendering is made
      of digits only. */
  lemma {:induction false} ValueOfRender(radix: Radix, n: nat, width: nat, upper: bool)
    requires n < radix.Limit(width)
    ensures radix.IsNumeral(radix.Render(n, width, upper))
    ensures radix.Value(radix.Render(n, width, upper)) == n
  {
    if width > 0 {
      var q, d := radix.Quot(n), radix.Rem(n);
      ValueOfRender(radix, q, width - 1, upper);
      SymbolValue(radix, upper, d);
      var head := radix.Render(q, width - 1, upper);
      assert radix.Render(n, width, upper) == head + [radix.Alphabet(upper)[d]];
      ValueSnoc(radix, head, radix.Alphabet(upper)[d]);
    }
  }

  /** Upper-casing a digit gives the upper-case symbol of the same value. */
  lemma UpperDigit(radix: Radix, c: char)
    requires radix.IsDigit(c)
    ensures radix.IsDigit(AsciiUpper(c))
    ensures AsciiUpper(c) == radix.Alphabet(true)[radix.DigitValue(c)]
    ensures radix.DigitValue(AsciiUpper(c)) == radix.DigitValue(c)
  {
    UpperSymbols();
    SymbolValue(radix, true, radix.DigitValue(c));
  }

  lemma AsciiUpperTextSnoc(s: string, c: char)
    ensures AsciiUpperText(s + [c]) == AsciiUpperText(s) + [AsciiUpper(c)]
  {
    var x, y := AsciiUpperText(s + [c]), AsciiUpperText(s) + [AsciiUpper(c)];
    assert |x| == |y|;
    forall k | 0 <= k < |x| ensures x[k] == y[k] {
      if k < |s| {
        assert (s + [c])[k] == s[k];
      }
    }
  }

  lemma AsciiUpperTextSlice(s: string, i: nat, j: nat)
    requires i <= j <= |s|
    ensures AsciiUpperText(s)[i..j] == AsciiUpperText(s[i..j])
  {
    var x, y := AsciiUpperText(s)[i..j], AsciiUpperText(s[i..j]);
    assert |x| == |y|;
    forall k | 0 <= k < |x| ensures x[k] == y[k] {
      assert s[i..j][k] == s[i + k];
    }
  }

  /** Rendering n = v * base + d at one more position than v appends d's
      symbol to the rendering of v. */
  lemma RenderSnoc(radix: Radix, n: nat, v: nat, d: nat, width: nat, upper: bool)
    requires d < radix.Base() && n == radix.Scale(v) + d
    ensures radix.Render(n, width + 1, upper) == radix.Render(v, width, upper) + [radix.Alphabet(upper)[d]]
  {
    assert radix.Quot(n) == v && radix.Rem(n) == d;
  }

  /** The inductive step of RenderOfValue: one more digit at the end. */
  lemma RenderOfValueSnoc(radix: Radix, s: string, c: char)
    requires radix.IsNumeral(s) && radix.IsDigit(c)
    requires radix.Render(radix.Value(s), |s|, true) == AsciiUpperText(s)
    ensures radix.IsNumeral(s + [c])
    ensures radix.Render(radix.Value(s + [c]), |s| + 1, true) == AsciiUpperText(s + [c])
  {
    ValueSnoc(radix, s, c);
    var n, v, d := radix.Value(s + [c]), radix.Value(s), radix.DigitValue(c);
    RenderSnoc(radix, n, v, d, |s|, true);
    UpperDigit(radix, c);
    AsciiUpperTextSnoc(s, c);
  }

  /** Rendering the value of a numeral at its own width spells it again,
      in upper case. */
  lemma {:induction false} RenderOfValue(radix: Radix, s: string)
    requires radix.IsNumeral(s)
    ensures radix.Render(radix.Value(s), |s|, true) == AsciiUpperText(s)
  {
    if s != [] {
      var s', c := s[..|s| - 1], s[|s| - 1];
      assert s == s' + [c];
      assert radix.IsNumeral(s');
      RenderOfValue(radix, s');
      RenderOfValueSnoc(radix, s', c);
    }
  }

  /** Upper-casing a numeral keeps every character a digit. */
  lemma UpperNumeral(radix: Radix, s: string)
    requires radix.IsNumeral(s)
    ensures radix.IsNumeral(AsciiUpperText(s))
  {
    forall k | 0 <= k < |s|
      ensures radix.IsDigit(AsciiUpperText(s)[k])
    {
      UpperDigit(radix, s[k]);
    }
  }

  /** Upper-casing a numeral keeps it a numeral of the same value. */
  lemma {:induction false} ValueOfUpper(radix: Radix, s: string)
    requires radix.IsNumeral(s)
    ensures radix.IsNumeral(AsciiUpperText(s))
    ensures radix.Value(AsciiUpperText(s)) == radix.Value(s)
  {
    UpperNumeral(radix, s);
    if s != [] {
      var s', c := s[..|s| - 1], s[|s| - 1];
      assert s == s' + [c];
      assert radix.IsNumeral(s');
      ValueOfUpper(radix, s');
      var t', u := AsciiUpperText(s'), AsciiUpper(c);
      AsciiUpperTextSnoc(s', c);
      assert AsciiUpperText(s) == t' + [u];
      UpperDigit(radix, c);
      ValueSnoc(radix, s', c);
      ValueSnoc(radix, t', u);
    }
  }

  /** Decimal numerals have no letters to upper-case. */
  lemma DecimalUpper(s: string)
    requires Decimal.IsNumeral(s)
    ensures AsciiUpperText(s) == s
  {
    forall k | 0 <= k < |s| ensures AsciiUpperText(s)[k] == s[k] {
      UpperDigit(Decimal, s[k]);
    }
  }
}
