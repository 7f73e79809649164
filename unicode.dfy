/** UTF-8 (RFC 3629) and UTF-16 (RFC 2781) on text modelled as a sequence of Unicode scalar
    values: per-code-point widths, encoders as Go's `[]byte(s)` and `utf16.Encode` produce them,
    and decoders as `utf8.DecodeRune` and `utf16.Decode` read them. Code units are `int`s. */
module Unicode {
  import opened Model

  const Replacement: char := '\U{FFFD}'

  /** Bytes one code point takes in UTF-8 (Go's utf8.RuneLen). */
  function Utf8Width(c: char): nat {
    var n := c as int;
    if n < 0x80 then 1 else if n < 0x800 then 2 else if n < 0x10000 then 3 else 4
  }

  /** Bytes a text takes in UTF-8, summed code point by code point. */
  function Utf8Len(s: string): nat {
    if s == [] then 0 else Utf8Width(s[0]) + Utf8Len(s[1..])
  }

  /** UTF-16 code units one code point takes: two (a surrogate pair) above U+FFFF. */
  function Utf16Width(c: char): nat {
    if c as int < 0x10000 then 1 else 2
  }

  /** UTF-16 code units a text takes, summed code point by code point. */
  function Utf16Units(s: string): nat {
    if s == [] then 0 else Utf16Width(s[0]) + Utf16Units(s[1..])
  }

  predicate IsContinuation(b: int) { 0x80 <= b < 0xC0 }

  /** Section 3 of RFC 3629: one code point as one to four bytes. */
  function EncodeRune8(c: char): (bs: seq<int>)
    ensures |bs| == Utf8Width(c)
    ensures forall i :: 0 <= i < |bs| ==> IsByte(bs[i])
    ensures forall i :: 1 <= i < |bs| ==> IsContinuation(bs[i])
  {
    var n := c as int;
    if n < 0x80 then [n]
    else if n < 0x800 then [0xC0 + n / 0x40, 0x80 + n % 0x40]
    else if n < 0x10000 then [0xE0 + n / 0x1000, 0x80 + (n / 0x40) % 0x40, 0x80 + n % 0x40]
    else [0xF0 + n / 0x40000, 0x80 + (n / 0x1000) % 0x40, 0x80 + (n / 0x40) % 0x40, 0x80 + n % 0x40]
  }

  /** The UTF-8 bytes of a text, as Go's `[]byte(s)` holds them. */
  function Utf8Encode(s: string): seq<int> {
    if s == [] then [] else EncodeRune8(s[0]) + Utf8Encode(s[1..])
  }

  lemma {:induction false} Utf8EncodeLength(s: string)
    ensures |Utf8Encode(s)| == Utf8Len(s)
  {
    if s != [] {
      Utf8EncodeLength(s[1..]);
    }
  }

  /** Go's utf8.DecodeRune: the first code point and the bytes it took; a malformed,
      overlong, surrogate or out-of-range sequence yields U+FFFD and one byte. */
  function DecodeRune8(bs: seq<int>): (r: (char, nat))
    requires bs != []
    ensures 1 <= r.1 <= |bs|
  {
    var b0 := bs[0];
    if 0 <= b0 < 0x80 then
      (b0 as char, 1)
    else if 0xC0 <= b0 < 0xE0 && |bs| >= 2 && IsContinuation(bs[1]) then
      var v := (b0 - 0xC0) * 0x40 + (bs[1] - 0x80);
      if 0x80 <= v then (v as char, 2) else (Replacement, 1)
    else if 0xE0 <= b0 < 0xF0 && |bs| >= 3 && IsContinuation(bs[1]) && IsContinuation(bs[2]) then
      var v := (b0 - 0xE0) * 0x1000 + (bs[1] - 0x80) * 0x40 + (bs[2] - 0x80);
      if 0x800 <= v && !(0xD800 <= v < 0xE000) then (v as char, 3) else (Replacement, 1)
    else if 0xF0 <= b0 < 0xF8 && |bs| >= 4 && IsContinuation(bs[1]) && IsContinuation(bs[2])
            && IsContinuation(bs[3]) then
      var v := (b0 - 0xF0) * 0x40000 + (bs[1] - 0x80) * 0x1000 + (bs[2] - 0x80) * 0x40 + (bs[3] - 0x80);
      if 0x10000 <= v < 0x110000 then (v as char, 4) else (Replacement, 1)
    else
      (Replacement, 1)
  }

  /** Decodes a whole byte string, as Go's `for range` over a string does. */
  function Utf8Decode(bs: seq<int>): string
    decreases |bs|
  {
    if bs == [] then "" else
      var (c, w) := DecodeRune8(bs);
      [c] + Utf8Decode(bs[w..])
  }

  lemma DecodeEncodeRune8(c: char, rest: seq<int>)
    ensures DecodeRune8(EncodeRune8(c) + rest) == (c, Utf8Width(c))
  {
    var n := c as int;
    var bs := EncodeRune8(c) + rest;
    if n < 0x80 {
    } else if n < 0x800 {
      assert bs[0] == 0xC0 + n / 0x40 && bs[1] == 0x80 + n % 0x40;
    } else if n < 0x10000 {
      ThreeByteValue(n, bs);
    } else {
      FourByteValue(n, bs);
    }
  }

  lemma ThreeByteValue(n: int, bs: seq<int>)
    requires 0x800 <= n < 0x10000 && (n < 0xD800 || 0xE000 <= n)
    requires |bs| >= 3 && bs[..3] == [0xE0 + n / 0x1000, 0x80 + (n / 0x40) % 0x40, 0x80 + n % 0x40]
    ensures DecodeRune8(bs) == (n as char, 3)
  {
    assert bs[0] == 0xE0 + n / 0x1000 && bs[1] == 0x80 + (n / 0x40) % 0x40 && bs[2] == 0x80 + n % 0x40;
    var v := (bs[0] - 0xE0) * 0x1000 + (bs[1] - 0x80) * 0x40 + (bs[2] - 0x80);
    assert v == n;
  }

  lemma FourByteValue(n: int, bs: seq<int>)
    requires 0x10000 <= n < 0x110000
    requires |bs| >= 4
    requires bs[..4] == [0xF0 + n / 0x40000, 0x80 + (n / 0x1000) % 0x40, 0x80 + (n / 0x40) % 0x40, 0x80 + n % 0x40]
    ensures DecodeRune8(bs) == (n as char, 4)
  {
    assert bs[0] == 0xF0 + n / 0x40000 && bs[1] == 0x80 + (n / 0x1000) % 0x40;
    assert bs[2] == 0x80 + (n / 0x40) % 0x40 && bs[3] == 0x80 + n % 0x40;
    FourByteDigits(n);
  }

  /** The four base-64 digits of a supplementary code point put it back together. */
  lemma FourByteDigits(n: int)
    requires 0x10000 <= n < 0x110000
    ensures (n / 0x40000) * 0x40000 + ((n / 0x1000) % 0x40) * 0x1000 + ((n / 0x40) % 0x40) * 0x40
            + n % 0x40 == n
  {
    var q1, q2 := n / 0x40, n / 0x1000;
    assert n == 0x40 * q1 + n % 0x40;
    assert q2 == q1 / 0x40;
    assert q1 == 0x40 * q2 + q1 % 0x40;
    assert q2 == 0x40 * (n / 0x40000) + q2 % 0x40;
  }

  /** Decoding the UTF-8 bytes of a text gives the text back. */
  lemma {:induction false} Utf8RoundTrip(s: string)
    ensures Utf8Decode(Utf8Encode(s)) == s
  {
    if s != [] {
      var e := EncodeRune8(s[0]);
      DecodeEncodeRune8(s[0], Utf8Encode(s[1..]));
      assert (e + Utf8Encode(s[1..]))[|e|..] == Utf8Encode(s[1..]);
      Utf8RoundTrip(s[1..]);
    }
  }

  /** Section 2.1 of RFC 2781: one code point as one code unit, or as a surrogate pair. */
  function EncodeRune16(c: char): (us: seq<int>)
    ensures |us| == Utf16Width(c)
    ensures forall i :: 0 <= i < |us| ==> 0 <= us[i] < 0x10000
  {
    var n := c as int;
    if n < 0x10000 then [n]
    else [0xD800 + (n - 0x10000) / 0x400, 0xDC00 + (n - 0x10000) % 0x400]
  }

  /** Go's utf16.Encode. */
  function Utf16Encode(s: string): seq<int> {
    if s == [] then [] else EncodeRune16(s[0]) + Utf16Encode(s[1..])
  }

  lemma {:induction false} Utf16EncodeLength(s: string)
    ensures |Utf16Encode(s)| == Utf16Units(s)
  {
    if s != [] {
      Utf16EncodeLength(s[1..]);
    }
  }

  predicate IsHighSurrogate(u: int) { 0xD800 <= u < 0xDC00 }

  predicate IsLowSurrogate(u: int) { 0xDC00 <= u < 0xE000 }

  /** Section 2.2 of RFC 2781, as Go's utf16.Decode: a lone surrogate or a unit out of range
      yields U+FFFD. */
  function Utf16Decode(us: seq<int>): string
    decreases |us|
  {
    if us == [] then ""
    else if IsHighSurrogate(us[0]) && |us| >= 2 && IsLowSurrogate(us[1]) then
      [(0x10000 + (us[0] - 0xD800) * 0x400 + (us[1] - 0xDC00)) as char] + Utf16Decode(us[2..])
    else if 0 <= us[0] < 0xD800 || 0xE000 <= us[0] < 0x10000 then
      [us[0] as char] + Utf16Decode(us[1..])
    else
      [Replacement] + Utf16Decode(us[1..])
  }

  /** Decoding the UTF-16 code units of a text gives the text back. */
  lemma {:induction false} Utf16RoundTrip(s: string)
    ensures Utf16Decode(Utf16Encode(s)) == s
  {
    if s != [] {
      var e := EncodeRune16(s[0]);
      var rest := Utf16Encode(s[1..]);
      assert (e + rest)[|e|..] == rest;
      if s[0] as int >= 0x10000 {
        var v := s[0] as int - 0x10000;
        assert 0x10000 + (v / 0x400) * 0x400 + v % 0x400 == s[0] as int;
      }
      Utf16RoundTrip(s[1..]);
    }
  }
}
