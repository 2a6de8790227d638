# Locale-independent character macros of GnuPG's common/util.h

GnuPG replaces the `<ctype.h>` classifiers with its own macros, so that
parsing does not depend on the locale. Beside them, the same header defines
fixed-width decoders that read one, two or four decimal or hexadecimal digits.
This project models those macros and proves what they compute:

- the classifiers `spacep`, `digitp`, `hexdigitp` and `ascii_isspace`;
- the decimal decoders `atoi_1`, `atoi_2` and `atoi_4`;
- the hexadecimal decoders `xtoi_1`, `xtoi_2` and `xtoi_4`.

Two modules:

- `Numerals` (numerals.dfy) is the reference. It defines base-10 and base-16
  numerals without any character arithmetic:
  - a digit is worth its position in the spelled-out symbol list `"0123456789"`, `"0123456789ABCDEF"` or `"0123456789abcdef"`;
  - a digit string is worth its positional value, most significant digit first;
  - `Render` writes a number zero-padded to a fixed width.

  Its lemmas prove that rendering and valuation invert each other. They also prove that concatenation shifts the value, and that upper-casing a numeral keeps its value.
- `Util` (util.dfy) holds the macros, written with the source's own comparisons and character arithmetic. Each contract ties the macro to the reference.

Modelling choices:

- A macro argument `p` is a pointer into a NUL-terminated buffer. It is modelled as the buffer contents `s` plus an offset `i`. `*(p + k)` is `Deref(s, i + k)`, and the offset `|s|` reads the terminating NUL. So the classifiers are defined at the end of the string too, and are false there.
- A C `char` is a Dafny `char`. Every constant the macros compare against is ASCII, so the signedness of `char` does not change any modelled result. It does change the result on a byte of 0x80 or more, which no decoder is modelled on.
- The decoders return an unbounded `int`. The largest intermediate result is 65535 (`xtoi_4`), so with a 32-bit C `int` no overflow is possible.
- The decoders require that every character they read is a digit of their radix. The comment at common/util.h:306 demands this of callers of the atoi macros. The xtoi macros are given the same requirement for hexadecimal digits. On any other character the comparison chain at common/util.h:310-311 still returns a number, and it can be one a real digit also gives (':' gives 3 like '3', 'W' gives 0 like '0'), so the result cannot show that the input was invalid. No caller of these macros is part of this model.
- Each macro expands its argument several times: `hexdigitp(a)`, through the `digitp(a)` it expands, reads `*(a)` up to six times, and `atoi_4(p)` expands `p` four times. Modelling them as functions of `(s, i)` assumes an argument without side effects; `digitp(p++)` is not modelled.

## Model

| member | source | states |
|---|---|---|
| Util.SpaceP | common/util.h:297 | true exactly for the characters `ascii_isspace` accepts other than line feed and carriage return, i.e. blank and tab; so `spacep` implies `ascii_isspace`; false on the terminating NUL |
| Util.DigitP | common/util.h:298 | true exactly when the character is one of the ten decimal digit symbols; false on the terminating NUL |
| Util.HexDigitP | common/util.h:299-301 | true exactly when the character is a hexadecimal digit symbol of either case; implied by `digitp`; false on the terminating NUL |
| Util.AsciiIsSpace | common/util.h:302-304 | true exactly for the C locale's `isspace` set with form feed and vertical tab removed |
| Util.Atoi1 | common/util.h:307 | on a decimal digit, gives that digit's value, in 0..9 |
| Util.Atoi2 | common/util.h:308 | on two decimal digits, gives the positional value of the two-digit numeral, in 0..99 |
| Util.Atoi4 | common/util.h:309 | on four decimal digits, gives the positional value of the four-digit numeral, in 0..9999 |
| Util.Xtoi1 | common/util.h:310-311 | on a hexadecimal digit of either case, gives that digit's value, in 0..15 |
| Util.Xtoi2 | common/util.h:312 | on two hexadecimal digits, gives the value of the byte they spell, in 0..255 |
| Util.Xtoi4 | common/util.h:313 | on four hexadecimal digits, gives the value they spell, in 0..65535 |
| Util.DecimalDigitIsHex | common/util.h:298-301 | every decimal digit symbol is a hexadecimal digit symbol: the character-level form of `digitp` implying `hexdigitp` |
| Util.RenderClassified | common/util.h:298-301 | every character of a zero-padded rendering passes `hexdigitp`, and `digitp` too for decimal renderings |
| Util.Atoi2RoundTrip | common/util.h:308 | every n in 0..99 written as two zero-padded decimal digits is accepted by `digitp` and decoded back to n by `atoi_2` |
| Util.Atoi4RoundTrip | common/util.h:309 | every n in 0..9999 written as four zero-padded decimal digits is accepted by `digitp` and decoded back to n by `atoi_4` |
| Util.Xtoi2RoundTrip | common/util.h:312 | every byte written as two hexadecimal digits, in upper or lower case, is accepted by `hexdigitp` and decoded back to itself by `xtoi_2` |
| Util.Xtoi4RoundTrip | common/util.h:313 | every n in 0..65535 written as four hexadecimal digits of either case is decoded back to n by `xtoi_4` |
| Util.Atoi2Renders | common/util.h:308 | rendering what `atoi_2` decodes, at width 2, spells the input digits again: the decoder loses nothing |
| Util.Atoi4Renders | common/util.h:309 | rendering what `atoi_4` decodes, at width 4, spells the input digits again |
| Util.Xtoi2Renders | common/util.h:312 | rendering what `xtoi_2` decodes, at width 2, spells the input again with its letters upper-cased |
| Util.Xtoi4Renders | common/util.h:313 | rendering what `xtoi_4` decodes, at width 4, spells the input again with its letters upper-cased |
| Util.Xtoi1OfDigit | common/util.h:307-311 | on a decimal digit, `xtoi_1` agrees with `atoi_1` |
| Util.Xtoi1IgnoresCase | common/util.h:310-311 | each letter A-F and its lower-case counterpart are both hexadecimal digits and decode to the same value, 10..15 |
| Util.UpperKeepsHexDigits | common/util.h:299-301 | upper-casing a buffer keeps every hexadecimal digit in it a hexadecimal digit |
| Util.Xtoi2IgnoresCase | common/util.h:312 | `xtoi_2` decodes the same value from a buffer and from its upper-cased copy |
| Util.Xtoi4IgnoresCase | common/util.h:313 | `xtoi_4` decodes the same value from a buffer and from its upper-cased copy |
| Numerals.DecimalDigitValue | common/util.h:307 | the characters '0'..'9' are decimal and hexadecimal digits whose value is their distance from '0' |
| Numerals.HexLetterValue | common/util.h:310-311 | the letters A-F and a-f are hexadecimal digits whose value is 10 plus their distance from 'A' or 'a' |
| Numerals.PairValue | common/util.h:308 | two digits are worth the first times the base plus the second |
| Numerals.QuadValue | common/util.h:309 | four digits are worth the first pair times the base squared plus the second pair |
| Numerals.ValueConcat | common/util.h:308-313 | the value of a concatenation is the first part shifted by the width of the second plus the second: the rule behind composing wider decoders from narrower ones |
| Numerals.ValueOfRender | common/util.h:307-313 | every number below base^width, rendered zero-padded at that width, is a numeral whose value is the number |
| Numerals.RenderOfValue | common/util.h:307-313 | rendering a numeral's value at its own width gives the numeral back, upper-cased |
| Numerals.ValueOfUpper | common/util.h:310-313 | upper-casing a numeral keeps it a numeral and keeps its value |

## Left out

- Xtoi1, Xtoi2, Xtoi4, Atoi1, Atoi2, Atoi4: the result on characters that are not digits of the radix is not modelled. The macros compute some number for such input, and callers must not pass it. The comment at common/util.h:306 states this for the atoi macros, and the model gives the xtoi macros the same requirement. On other characters the chain at common/util.h:310-311 still returns a number, e.g. 3 for ':' (like '3') and 0 for 'W' (like '0').
- The Radix-64 armor API `b64enc_*`/`b64dec_*` and `struct b64state` (common/util.h:137-162): only prototypes are visible. Its implementation, b64enc.c and b64dec.c, is not part of this model.
- The allocation macros `xmalloc`, `xtrymalloc`, `xfree` and the rest (common/util.h:89-108), and `out_of_core` (common/util.h:113-117): thin wrappers over the memory allocator and error codes.
- The `asprintf`/`vasprintf`/`snprintf` redirections (common/util.h:64-71): formatted output through the stream library.
- Declarations whose bodies live in other files, none of which is part of this model:
  - signal handling (common/util.h:120-123);
  - yes/no answers (common/util.h:125-129);
  - `read_line`, which is file input (common/util.h:131-134);
  - canonical S-expression helpers (common/util.h:167-189);
  - hex conversion (common/util.h:191-198);
  - percent escaping (common/util.h:200-206);
  - home directory and module names (common/util.h:209-234);
  - printing helpers (common/util.h:247-268).
- The `ttyname`, `getpid`, `getenv`/`setenv` and `isatty` replacements (common/util.h:271-292): operating-system calls.
- Xtoi4: a C `int` of only 16 bits is not modelled. There `xtoi_2(p) * 256` at common/util.h:313 exceeds 32767 for a first byte of 0x80 or more, so the model's results match the macro only where `int` is at least 32 bits wide.
- The fallback error-code constants (common/util.h:26-41) and the compiler attribute macros (common/util.h:74-79): no behaviour.
