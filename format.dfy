/** Python's integer format specifications `{n:08x}` and `{n:05d}` for
    non-negative n (zero-padded to at least the width, lower-case hex, never
    truncated), and the code-point-wise order of `str` comparison. */
module Format {

  function Pow16(e: nat): (p: nat)
    ensures p >= 1
  {
    if e == 0 then 1 else 16 * Pow16(e - 1)
  }

  predicate IsHexDigit(c: char) {
    '0' <= c <= '9' || 'a' <= c <= 'f'
  }

  predicate IsDecimalDigit(c: char) {
    '0' <= c <= '9'
  }

  function DigitChar(d: nat): (c: char)
    requires d < 16
    ensures IsHexDigit(c) && (d < 10 ==> IsDecimalDigit(c))
    ensures c == '0' <==> d == 0
    ensures DigitValue(c) == d
  {
    if d < 10 then ('0' as int + d) as char else ('a' as int + d - 10) as char
  }

  /** The value of a digit character (a reference decoder). */
  function DigitValue(c: char): nat {
    if '0' <= c <= '9' then c as int - '0' as int
    else if 'a' <= c <= 'f' then c as int - 'a' as int + 10
    else 0
  }

  /** `{n:0{width}x}`: n in lower-case hexadecimal, padded on the left with
      zeros to at least `width` digits (and no further). */
  function Hex(n: nat, width: nat): string
    decreases n + width
  {
    if n < 16 && width <= 1 then [DigitChar(n)]
    else Hex(n / 16, if width == 0 then 0 else width - 1) + [DigitChar(n % 16)]
  }

  /** `{n:0{width}d}`: n in decimal, padded on the left with zeros to at
      least `width` digits (and no further). */
  function Decimal(n: nat, width: nat): string
    decreases n + width
  {
    if n < 10 && width <= 1 then [DigitChar(n)]
    else Decimal(n / 10, if width == 0 then 0 else width - 1) + [DigitChar(n % 10)]
  }

  /** Reads digits in `base` back, most significant first. */
  function FromDigits(s: string, base: nat): nat {
    if s == [] then 0 else base * FromDigits(s[..|s| - 1], base) + DigitValue(s[|s| - 1])
  }

  /** Python's `<` on `str`: code point by code point; a proper prefix is smaller. */
  predicate LexLess(a: string, b: string) {
    b != [] && (a == [] || a[0] < b[0] || (a[0] == b[0] && LexLess(a[1..], b[1..])))
  }

  /** Only lower-case hexadecimal digits come out, and the zeros in front
      are the padding up to `width` and no more. */
  lemma {:induction false} HexDigits(n: nat, width: nat)
    ensures |Hex(n, width)| >= 1 && |Hex(n, width)| >= width
    ensures forall i :: 0 <= i < |Hex(n, width)| ==> IsHexDigit(Hex(n, width)[i])
    ensures |Hex(n, width)| > 1 && |Hex(n, width)| > width ==> Hex(n, width)[0] != '0'
    decreases n + width
  {
    if !(n < 16 && width <= 1) {
      HexDigits(n / 16, if width == 0 then 0 else width - 1);
    }
  }

  /** Only decimal digits come out, and the zeros in front are the padding
      up to `width` and no more. */
  lemma {:induction false} DecimalDigits(n: nat, width: nat)
    ensures |Decimal(n, width)| >= 1 && |Decimal(n, width)| >= width
    ensures forall i :: 0 <= i < |Decimal(n, width)| ==> IsDecimalDigit(Decimal(n, width)[i])
    ensures |Decimal(n, width)| > 1 && |Decimal(n, width)| > width ==> Decimal(n, width)[0] != '0'
    decreases n + width
  {
    if !(n < 10 && width <= 1) {
      DecimalDigits(n / 10, if width == 0 then 0 else width - 1);
    }
  }

  /** Hexadecimal formatting is undone by reading the digits back. */
  lemma {:induction false} HexRoundTrip(n: nat, width: nat)
    ensures FromDigits(Hex(n, width), 16) == n
    decreases n + width
  {
    if !(n < 16 && width <= 1) {
      var w' := if width == 0 then 0 else width - 1;
      HexRoundTrip(n / 16, w');
      var s := Hex(n, width);
      assert s[..|s| - 1] == Hex(n / 16, w');
    }
  }

  /** Decimal formatting is undone by reading the digits back. */
  lemma {:induction false} DecimalRoundTrip(n: nat, width: nat)
    ensures FromDigits(Decimal(n, width), 10) == n
    decreases n + width
  {
    if !(n < 10 && width <= 1) {
      var w' := if width == 0 then 0 else width - 1;
      DecimalRoundTrip(n / 10, w');
      var s := Decimal(n, width);
      assert s[..|s| - 1] == Decimal(n / 10, w');
    }
  }

  /** A number below 16^width takes exactly `width` hexadecimal digits. */
  lemma {:induction false} HexLength(n: nat, width: nat)
    requires width >= 1 && n < Pow16(width)
    ensures |Hex(n, width)| == width
    decreases width
  {
    if !(n < 16 && width <= 1) {
      HexLength(n / 16, width - 1);
    }
  }

  /** Comparing two equal-length texts extended by one character each: the
      last character decides only when the prefixes agree. */
  lemma {:induction false} LexLessSnoc(a: string, c: char, b: string, d: char)
    requires |a| == |b|
    ensures LexLess(a + [c], b + [d]) <==> LexLess(a, b) || (a == b && c < d)
  {
    if a != [] {
      assert (a + [c])[1..] == a[1..] + [c];
      assert (b + [d])[1..] == b[1..] + [d];
      LexLessSnoc(a[1..], c, b[1..], d);
      if a[0] == b[0] && a[1..] == b[1..] { assert a == b; }
    } else {
      assert b == [];
    }
  }

  /** With a fixed number of digits, the text order of the formatted numbers
      is their numeric order. */
  lemma {:induction false} HexOrder(n: nat, m: nat, width: nat)
    requires width >= 1 && n < Pow16(width) && m < Pow16(width)
    ensures n < m <==> LexLess(Hex(n, width), Hex(m, width))
    decreases width
  {
    if width > 1 {
      var pn, pm := Hex(n / 16, width - 1), Hex(m / 16, width - 1);
      HexLength(n / 16, width - 1);
      HexLength(m / 16, width - 1);
      LexLessSnoc(pn, DigitChar(n % 16), pm, DigitChar(m % 16));
      HexOrder(n / 16, m / 16, width - 1);
      if pn == pm {
        HexRoundTrip(n / 16, width - 1);
        HexRoundTrip(m / 16, width - 1);
      }
    }
  }
}
