/** The encoded length of a short message under its data_coding, and the number of SMS
    segments that length occupies. */
module Lengths {
  import opened Wrappers
  import Unicode
  import Gsm

  /** SMPP v3.4 data_coding values (section 5.2.19) that the validator distinguishes. */
  const SevenBit := 0
  const SixteenBit := 8

  /** ucs2ByteLength: the bytes of the text as UTF-16BE, two per code unit. */
  function Ucs2ByteLength(s: string): (n: nat)
    ensures n == 2 * Unicode.Utf16Units(s)
  {
    Unicode.Utf16EncodeLength(s);
    |Unicode.Utf16Encode(s)| * 2
  }

  /** Every rune costs two bytes, or four when it needs a surrogate pair. */
  lemma {:induction false} Ucs2ByteLengthBounds(s: string)
    ensures 2 * |s| <= Ucs2ByteLength(s) <= 4 * |s|
    ensures Ucs2ByteLength(s) == 2 * |s| <==> forall i :: 0 <= i < |s| ==> s[i] as int <= 0xFFFF
  {
    if s != [] {
      Ucs2ByteLengthBounds(s[1..]);
      assert forall i :: 1 <= i < |s| ==> s[i] == s[1..][i - 1];
    }
  }

  /** `len([]byte(s))`: the bytes of the text as UTF-8. */
  function Utf8ByteLength(s: string): (n: nat)
    ensures n == Unicode.Utf8Len(s)
  {
    Unicode.Utf8EncodeLength(s);
    |Unicode.Utf8Encode(s)|
  }

  /** The length rule of the validator: septets under data_coding 0 (failing on the first rune
      outside the GSM alphabets), UTF-16 bytes under 8, UTF-8 bytes under any other value. */
  function SmLength(message: string, dataCoding: int): (r: Result<nat, char>)
    ensures dataCoding == SevenBit ==> r == Gsm.SeptetCount(message)
    ensures dataCoding == SixteenBit ==> r == Success(2 * Unicode.Utf16Units(message))
    ensures dataCoding != SevenBit && dataCoding != SixteenBit ==> r == Success(Unicode.Utf8Len(message))
  {
    if dataCoding == SevenBit then Gsm.SeptetCount(message)
    else if dataCoding == SixteenBit then Success(Ucs2ByteLength(message))
    else Success(Utf8ByteLength(message))
  }

  /** The capacity of one segment: 160/153 septets, 70/67 UCS-2 characters, 140/134 octets,
      the smaller figure leaving room for the 6-octet concatenation header of
      3GPP TS 23.040 section 9.2.3.24.1. */
  function PerSegment(dataCoding: int, udhPresent: bool): nat {
    if dataCoding == SevenBit then (if udhPresent then 153 else 160)
    else if dataCoding == SixteenBit then (if udhPresent then 67 else 70)
    else (if udhPresent then 134 else 140)
  }

  /** computeSegments: no segment for a non-positive length, otherwise the least number of
      segments whose joint capacity holds the whole length. */
  function ComputeSegments(dataCoding: int, udhPresent: bool, messageLength: int): (n: int)
    ensures messageLength <= 0 ==> n == 0
    ensures messageLength > 0 ==>
              && n >= 1
              && (n - 1) * PerSegment(dataCoding, udhPresent) < messageLength
              && messageLength <= n * PerSegment(dataCoding, udhPresent)
  {
    var perSegment := PerSegment(dataCoding, udhPresent);
    if messageLength <= 0 then 0 else (messageLength + perSegment - 1) / perSegment
  }

  /** The boundary cases of the segment table. */
  lemma SegmentExamples()
    ensures ComputeSegments(SevenBit, false, 160) == 1
    ensures ComputeSegments(SevenBit, false, 161) == 2
    ensures ComputeSegments(SevenBit, true, 153) == 1
    ensures ComputeSegments(SevenBit, true, 154) == 2
    ensures ComputeSegments(SixteenBit, false, 70) == 1 && ComputeSegments(SixteenBit, true, 68) == 2
    ensures ComputeSegments(4, false, 140) == 1 && ComputeSegments(4, true, 135) == 2
  {
  }

  /** The ceiling is determined: any count that satisfies the two bounds is the one computed. */
  lemma SegmentsUnique(dataCoding: int, udhPresent: bool, messageLength: int, k: int)
    requires messageLength > 0
    requires (k - 1) * PerSegment(dataCoding, udhPresent) < messageLength
    requires messageLength <= k * PerSegment(dataCoding, udhPresent)
    ensures k == ComputeSegments(dataCoding, udhPresent, messageLength)
  {
    var c := PerSegment(dataCoding, udhPresent);
    var n := ComputeSegments(dataCoding, udhPresent, messageLength);
    if k < n {
      MulMonotone(k, n - 1, c);
    } else if k > n {
      MulMonotone(n, k - 1, c);
    }
  }

  lemma MulMonotone(a: int, b: int, c: nat)
    requires a <= b
    ensures a * c <= b * c
  {
    assert b * c - a * c == (b - a) * c;
  }

  /** A longer message never needs fewer segments. */
  lemma SegmentsMonotone(dataCoding: int, udhPresent: bool, a: int, b: int)
    requires a <= b
    ensures ComputeSegments(dataCoding, udhPresent, a) <= ComputeSegments(dataCoding, udhPresent, b)
  {
    var c := PerSegment(dataCoding, udhPresent);
    var na, nb := ComputeSegments(dataCoding, udhPresent, a), ComputeSegments(dataCoding, udhPresent, b);
    if a > 0 && na > nb {
      MulMonotone(nb, na - 1, c);
    }
  }

  /** A concatenation header never lowers the segment count. */
  lemma UdhNeverFewer(dataCoding: int, messageLength: int)
    ensures ComputeSegments(dataCoding, false, messageLength) <= ComputeSegments(dataCoding, true, messageLength)
  {
    var plain, udh := PerSegment(dataCoding, false), PerSegment(dataCoding, true);
    var np, nu := ComputeSegments(dataCoding, false, messageLength), ComputeSegments(dataCoding, true, messageLength);
    if messageLength > 0 && nu < np {
      MulMonotone(nu, np - 1, plain);
      MulMonotone(udh, plain, nu);
    }
  }
}
