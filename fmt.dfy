/** The verbs of Go's `fmt` package that the validator's messages use: `%d` for an integer,
    `%U` and `%q` for a rune. Every rendering is paired with the parser that reads it back. */
module Fmt {
  import opened Wrappers

  /** The digits of `n` in base `base`, most significant first, without leading zeros. */
  function Digits(n: nat, base: nat): (ds: seq<nat>)
    requires base == 10 || base == 16
    ensures |ds| >= 1
    ensures forall i :: 0 <= i < |ds| ==> ds[i] < base
    ensures |ds| > 1 ==> ds[0] != 0
    decreases n
  {
    if n < base then [n] else DivStep(n, base); Digits(n / base, base) + [n % base]
  }

  /** Dividing a number at least the base leaves a smaller, non-zero quotient. */
  lemma DivStep(n: nat, base: nat)
    requires (base == 10 || base == 16) && base <= n
    ensures 1 <= n / base < n && n % base < base
  {
    if base == 10 {
      assert 1 <= n / 10 < n;
    } else {
      assert 1 <= n / 16 < n;
    }
  }

  /** The number a digit sequence denotes in base `base`. */
  function Value(ds: seq<nat>, base: nat): nat {
    if ds == [] then 0 else Value(ds[..|ds| - 1], base) * base + ds[|ds| - 1]
  }

  lemma {:induction false} DigitsValue(n: nat, base: nat)
    requires base == 10 || base == 16
    ensures Value(Digits(n, base), base) == n
    decreases n
  {
    if n >= base {
      var q, d := n / base, n % base;
      var ds := Digits(n, base);
      assert ds[..|ds| - 1] == Digits(q, base);
      DigitsValue(q, base);
      assert Value(ds, base) == Value(Digits(q, base), base) * base + d;
    }
  }

  /** Zero-padding on the left up to `width` digits (the `0` flag with a width). */
  function Pad(ds: seq<nat>, width: nat): (r: seq<nat>)
    ensures |r| >= width && |r| >= |ds|
    ensures (forall i :: 0 <= i < |ds| ==> ds[i] < 16) ==> forall i :: 0 <= i < |r| ==> r[i] < 16
    decreases width - |ds|
  {
    if |ds| >= width then ds else Pad([0] + ds, width)
  }

  lemma {:induction false} LeadingZeroValue(ds: seq<nat>, base: nat)
    ensures Value([0] + ds, base) == Value(ds, base)
    decreases |ds|
  {
    if ds != [] {
      var d' := ds[..|ds| - 1];
      assert ([0] + ds)[..|ds|] == [0] + d';
      LeadingZeroValue(d', base);
    }
  }

  lemma {:induction false} PadValue(ds: seq<nat>, width: nat, base: nat)
    ensures Value(Pad(ds, width), base) == Value(ds, base)
    decreases width - |ds|
  {
    if |ds| < width {
      LeadingZeroValue(ds, base);
      PadValue([0] + ds, width, base);
    }
  }

  /** The character for a digit below 16; `upper` chooses between `%X` and `%x` letters. */
  function DigitChar(d: nat, upper: bool): char
    requires d < 16
  {
    if d < 10 then ('0' as int + d) as char
    else if upper then ('A' as int + d - 10) as char
    else ('a' as int + d - 10) as char
  }

  /** The digit a character stands for, in either letter case. */
  function DigitOf(c: char): nat {
    if '0' <= c <= '9' then c as int - '0' as int
    else if 'a' <= c <= 'f' then c as int - 'a' as int + 10
    else if 'A' <= c <= 'F' then c as int - 'A' as int + 10
    else 0
  }

  function Render(ds: seq<nat>, upper: bool): (s: string)
    requires forall i :: 0 <= i < |ds| ==> ds[i] < 16
    ensures |s| == |ds|
  {
    seq(|ds|, i requires 0 <= i < |ds| => DigitChar(ds[i], upper))
  }

  /** Reads a run of digits in base `base`. */
  function Parse(s: string, base: nat): nat {
    if s == [] then 0 else Parse(s[..|s| - 1], base) * base + DigitOf(s[|s| - 1])
  }

  lemma {:induction false} ParseRender(ds: seq<nat>, upper: bool, base: nat)
    requires base <= 16
    requires forall i :: 0 <= i < |ds| ==> ds[i] < base
    ensures Parse(Render(ds, upper), base) == Value(ds, base)
    decreases |ds|
  {
    if ds != [] {
      var d' := ds[..|ds| - 1];
      assert Render(ds, upper)[..|ds| - 1] == Render(d', upper);
      ParseRender(d', upper, base);
    }
  }

  /** `%d`: an optional minus sign and the decimal digits. */
  function Decimal(n: int): string {
    if n < 0 then "-" + Render(Digits(-n, 10), false) else Render(Digits(n, 10), false)
  }

  /** Reads back what `%d` writes. */
  function ParseDecimal(s: string): int {
    if s != [] && s[0] == '-' then 0 - Parse(s[1..], 10) else Parse(s, 10)
  }

  lemma DecimalRoundTrip(n: int)
    ensures ParseDecimal(Decimal(n)) == n
  {
    var m := if n < 0 then -n else n;
    ParseRender(Digits(m, 10), false, 10);
    DigitsValue(m, 10);
    if n < 0 {
      assert Decimal(n)[1..] == Render(Digits(m, 10), false);
    } else {
      assert Decimal(n)[0] != '-';
    }
  }

  /** `%U`: "U+" and at least four upper-case hexadecimal digits. */
  function CodePoint(r: char): string {
    "U+" + Render(Pad(Digits(r as int, 16), 4), true)
  }

  lemma CodePointRoundTrip(r: char)
    ensures |CodePoint(r)| >= 6 && CodePoint(r)[..2] == "U+"
    ensures Parse(CodePoint(r)[2..], 16) == r as int
  {
    var ds := Digits(r as int, 16);
    assert CodePoint(r)[2..] == Render(Pad(ds, 4), true);
    ParseRender(Pad(ds, 4), true, 16);
    PadValue(ds, 4, 16);
    DigitsValue(r as int, 16);
  }

  /** Go's strconv.IsPrint. Exact up to U+00FF. Above it, the private-use areas, the
      separators, the common format characters and the two noncharacters U+FFFE and U+FFFF
      are not printable; every other rune, assigned or not, is taken as printable. */
  predicate IsPrint(r: char) {
    var n := r as int;
    if n <= 0xFF then
      (0x20 <= n <= 0x7E) || (0xA1 <= n <= 0xFF && n != 0xAD)
    else
      !((0xE000 <= n <= 0xF8FF) || 0xF0000 <= n
        || n == 0x1680 || (0x2000 <= n <= 0x200F) || (0x2028 <= n <= 0x202F)
        || (0x205F <= n <= 0x2064) || n == 0x3000 || n == 0xFEFF || n == 0xFFFE || n == 0xFFFF)
  }

  /** `\x`, `\u` or `\U` followed by `width` lower-case hexadecimal digits. */
  function HexEscape(prefix: char, r: char, width: nat): string {
    ['\\', prefix] + Render(Pad(Digits(r as int, 16), width), false)
  }

  /** The body of a Go rune literal, as strconv.QuoteRune writes it. */
  function EscapeRune(r: char): string {
    var n := r as int;
    if r == '\'' || r == '\\' then ['\\', r]
    else if IsPrint(r) then [r]
    else if n == 7 then "\\a"
    else if n == 8 then "\\b"
    else if n == 12 then "\\f"
    else if n == 10 then "\\n"
    else if n == 13 then "\\r"
    else if n == 9 then "\\t"
    else if n == 11 then "\\v"
    else HexEscape(HexPrefix(r), r, HexWidth(r))
  }

  /** The escape letter of a non-printable rune: `x` for a control byte, `u` within the Basic
      Multilingual Plane, `U` above it. */
  function HexPrefix(r: char): char {
    if r as int < 0x20 || r as int == 0x7F then 'x' else if r as int < 0x10000 then 'u' else 'U'
  }

  /** The number of hexadecimal digits after the escape letter. */
  function HexWidth(r: char): nat {
    if r as int < 0x20 || r as int == 0x7F then 2 else if r as int < 0x10000 then 4 else 8
  }

  /** `%q` of a rune: a single-quoted Go rune literal. */
  function QuoteRune(r: char): string {
    "'" + EscapeRune(r) + "'"
  }

  /** Go's strconv.Unquote, for the rune literals that QuoteRune writes. */
  function UnquoteRune(q: string): Option<char> {
    if |q| < 3 || q[0] != '\'' || q[|q| - 1] != '\'' then None
    else
      var body := q[1..|q| - 1];
      if |body| == 1 then Some(body[0])
      else if body[0] != '\\' then None
      else if |body| == 2 then
        match body[1]
        case 'a' => Some(7 as char)
        case 'b' => Some(8 as char)
        case 'f' => Some(12 as char)
        case 'n' => Some(10 as char)
        case 'r' => Some(13 as char)
        case 't' => Some(9 as char)
        case 'v' => Some(11 as char)
        case '\\' => Some('\\')
        case '\'' => Some('\'')
        case _ => None
      else if body[1] in "xuU" then
        var v := Parse(body[2..], 16);
        if v < 0xD800 || 0xE000 <= v < 0x110000 then Some(v as char) else None
      else None
  }

  lemma HexEscapeValue(prefix: char, r: char, width: nat)
    ensures |HexEscape(prefix, r, width)| >= 2 + width
    ensures Parse(HexEscape(prefix, r, width)[2..], 16) == r as int
  {
    var ds := Digits(r as int, 16);
    assert HexEscape(prefix, r, width)[2..] == Render(Pad(ds, width), false);
    ParseRender(Pad(ds, width), false, 16);
    PadValue(ds, width, 16);
    DigitsValue(r as int, 16);
  }

  /** Reading a quoted rune back gives the rune that was quoted. */
  lemma QuoteRuneRoundTrip(r: char)
    ensures UnquoteRune(QuoteRune(r)) == Some(r)
  {
    var n := r as int;
    if r == '\'' || r == '\\' || IsPrint(r) || 7 <= n <= 13 {
      ShortQuoteRoundTrip(r);
    } else {
      HexQuoteRoundTrip(r);
    }
  }

  /** A rune written as itself or as a one-letter escape reads back. */
  lemma ShortQuoteRoundTrip(r: char)
    requires r == '\'' || r == '\\' || IsPrint(r) || 7 <= r as int <= 13
    ensures UnquoteRune(QuoteRune(r)) == Some(r)
  {
    var q := QuoteRune(r);
    assert q[1..|q| - 1] == EscapeRune(r);
  }

  /** A rune written as a hexadecimal escape reads back. */
  lemma HexQuoteRoundTrip(r: char)
    requires !(r == '\'' || r == '\\' || IsPrint(r) || 7 <= r as int <= 13)
    ensures UnquoteRune(QuoteRune(r)) == Some(r)
  {
    var prefix, width := HexPrefix(r), HexWidth(r);
    var e := HexEscape(prefix, r, width);
    assert EscapeRune(r) == e;
    HexEscapeValue(prefix, r, width);
    var q := QuoteRune(r);
    assert q[1..|q| - 1] == e;
    UnquoteHex(q, prefix, r);
  }

  /** A quoted hexadecimal escape reads back as the rune its digits denote. */
  lemma UnquoteHex(q: string, prefix: char, r: char)
    requires |q| >= 5 && q[0] == '\'' && q[|q| - 1] == '\''
    requires q[1] == '\\' && q[2] == prefix && prefix in "xuU"
    requires Parse(q[1..|q| - 1][2..], 16) == r as int
    ensures UnquoteRune(q) == Some(r)
  {
    var body := q[1..|q| - 1];
    assert body[0] == '\\' && body[1] == prefix;
  }
}
