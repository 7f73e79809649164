/** validateTestCase: the short-circuiting check of one test case. The first definitive failure
    (missing destination, a rune outside the GSM alphabets, a wrong sm_length) ends it; otherwise
    the segment count is computed and compared, best effort, with the expected output. */
module Validator {
  import opened Wrappers
  import opened Model
  import Strings
  import Fmt
  import Unicode
  import Gsm
  import Lengths

  const MissingDestination := "Missing required field: destination_addr"
  const Incompatible := "Message contains characters incompatible with data_coding 0 (GSM 7-bit)"
  const UdhNote := "UDHI present, SMSC should concatenate segments"

  function SmLengthMismatch(declared: int, computed: int): string {
    "sm_length indicates " + Fmt.Decimal(declared) + " bytes but actual short_message is "
    + Fmt.Decimal(computed) + " bytes (truncated or malformed PDU)"
  }

  function SegmentsMismatch(expected: int, computed: int): string {
    "expected segments " + Fmt.Decimal(expected) + " but computed " + Fmt.Decimal(computed)
  }

  /** The destination address is absent or white space only. */
  predicate DestinationMissing(pdu: InputPdu) {
    pdu.destinationAddr.None? || Strings.TrimSpace(pdu.destinationAddr.value) == ""
  }

  /** A user data header is present and not blank. */
  predicate UdhPresent(pdu: InputPdu) {
    pdu.udh.Some? && Strings.TrimSpace(pdu.udh.value) != ""
  }

  /** The expected error text is present and contains `needle`. */
  predicate ErrorMentions(expected: ExpectedOutput, needle: string) {
    expected.error.Some? && Strings.Contains(expected.error.value, needle)
  }

  /** The expected delivery status, trimmed and lower-cased, is `status`. */
  predicate StatusIs(expected: ExpectedOutput, status: string) {
    expected.deliveryStatus.Some? && Strings.ToLower(Strings.TrimSpace(expected.deliveryStatus.value)) == status
  }

  /** The result of a terminal failure: invalid, with no segment, note or mismatch. */
  function Rejected(index: int, errors: seq<string>, computed: int, matched: bool): ValidationResult {
    ValidationResult(index, false, errors, computed, 0, "", matched, [])
  }

  /** The result of an input that passed every check, compared with the expected output. */
  function Reconciled(index: int, expected: ExpectedOutput, computed: nat, segments: int, udh: bool)
    : ValidationResult
  {
    var valid := true;
    var statusMismatch := (StatusIs(expected, "accepted") && !valid) || (StatusIs(expected, "failed") && valid);
    var segmentsMismatch := expected.segments.Some? && expected.segments.value != segments;
    ValidationResult(index, valid, [], computed, segments, if udh then UdhNote else "",
                     !statusMismatch && !segmentsMismatch,
                     if segmentsMismatch then [SegmentsMismatch(expected.segments.value, segments)] else [])
  }

  /** The decision of validateTestCase, from what it reads of the test case: whether the
      destination is missing, the length of the message (or the rune that has none), the coding,
      the declared sm_length, whether a header is present, and the expected output. */
  function Decide(index: int, missing: bool, length: Result<nat, char>, dataCoding: int, smLength: Option<int>,
                  udh: bool, expected: ExpectedOutput): ValidationResult
  {
    if missing then
      Rejected(index, [MissingDestination], 0, ErrorMentions(expected, "Missing required field"))
    else
      match length
      case Failure(r) =>
        Rejected(index, [Incompatible, Gsm.NotRepresentable(r)], 0, ErrorMentions(expected, "incompatible"))
      case Success(computed) =>
        if smLength.Some? && smLength.value != computed then
          Rejected(index, [SmLengthMismatch(smLength.value, computed)], computed,
                   ErrorMentions(expected, "sm_length indicates"))
        else
          Reconciled(index, expected, computed, Lengths.ComputeSegments(dataCoding, udh, computed), udh)
  }

  /** The result validateTestCase produces for test case `tc` at position `index`; an absent
      short_message reads as "" and an absent data_coding as 0. */
  function Validate(index: int, tc: TestCase): ValidationResult {
    var pdu := tc.inputPdu;
    var dataCoding := pdu.dataCoding.GetOr(Lengths.SevenBit);
    Decide(index, DestinationMissing(pdu), Lengths.SmLength(pdu.shortMessage.GetOr(""), dataCoding), dataCoding,
           pdu.smLength, UdhPresent(pdu), tc.expectedOutput)
  }

  /** What every result satisfies: errors exactly when invalid; an invalid result carries no
      segment, note or mismatch; a valid one agrees with any declared sm_length, carries the note
      exactly when a header is present, and matches exactly when nothing was flagged. */
  lemma ValidateShape(index: int, tc: TestCase)
    ensures var r := Validate(index, tc);
      && r.index == index
      && (r.valid <==> r.errors == [])
      && |r.errors| <= 2
      && (!r.valid ==> r.segments == 0 && r.note == "" && r.mismatches == [])
      && (r.valid ==>
            && r.computedSmLength >= 0
            && (tc.inputPdu.smLength.Some? ==> tc.inputPdu.smLength.value == r.computedSmLength)
            && (r.note == UdhNote <==> UdhPresent(tc.inputPdu))
            && (r.note == "" <==> !UdhPresent(tc.inputPdu))
            && |r.mismatches| <= 1
            && (r.expectedOutputMatch <==> r.mismatches == [] && !StatusIs(tc.expectedOutput, "failed")))
  {
    var pdu := tc.inputPdu;
    var dataCoding := pdu.dataCoding.GetOr(Lengths.SevenBit);
    DecideShape(index, DestinationMissing(pdu), Lengths.SmLength(pdu.shortMessage.GetOr(""), dataCoding), dataCoding,
                pdu.smLength, UdhPresent(pdu), tc.expectedOutput);
  }

  lemma DecideShape(index: int, missing: bool, length: Result<nat, char>, dataCoding: int, smLength: Option<int>,
                    udh: bool, expected: ExpectedOutput)
    ensures var r := Decide(index, missing, length, dataCoding, smLength, udh, expected);
      && r.index == index
      && (r.valid <==> r.errors == [])
      && |r.errors| <= 2
      && (!r.valid ==> r.segments == 0 && r.note == "" && r.mismatches == [])
      && (r.valid ==>
            && r.computedSmLength >= 0
            && (smLength.Some? ==> smLength.value == r.computedSmLength)
            && (r.note == UdhNote <==> udh)
            && (r.note == "" <==> !udh)
            && |r.mismatches| <= 1
            && (r.expectedOutputMatch <==> r.mismatches == [] && !StatusIs(expected, "failed")))
  {
    if !missing && length.Success? && !(smLength.Some? && smLength.value != length.value) {
      var computed := length.value;
      var segments := Lengths.ComputeSegments(dataCoding, udh, computed);
      var r := Reconciled(index, expected, computed, segments, udh);
      assert |UdhNote| > 0;
      assert r.valid && r.errors == [];
    }
  }

  /** A valid result is the reconciliation of the computed length with the expected output. */
  lemma DecideValid(index: int, missing: bool, length: Result<nat, char>, dataCoding: int, smLength: Option<int>,
                    udh: bool, expected: ExpectedOutput)
    requires Decide(index, missing, length, dataCoding, smLength, udh, expected).valid
    ensures !missing && length.Success? && (smLength.Some? ==> smLength.value == length.value)
    ensures Decide(index, missing, length, dataCoding, smLength, udh, expected)
            == Reconciled(index, expected, length.value, Lengths.ComputeSegments(dataCoding, udh, length.value), udh)
  {
  }

  lemma ValidIsReconciled(index: int, tc: TestCase)
    requires Validate(index, tc).valid
    ensures var pdu := tc.inputPdu;
            var dataCoding := pdu.dataCoding.GetOr(Lengths.SevenBit);
            var length := Lengths.SmLength(pdu.shortMessage.GetOr(""), dataCoding);
            && length.Success?
            && Validate(index, tc)
               == Reconciled(index, tc.expectedOutput, length.value,
                             Lengths.ComputeSegments(dataCoding, UdhPresent(pdu), length.value), UdhPresent(pdu))
  {
    var pdu := tc.inputPdu;
    var dataCoding := pdu.dataCoding.GetOr(Lengths.SevenBit);
    DecideValid(index, DestinationMissing(pdu), Lengths.SmLength(pdu.shortMessage.GetOr(""), dataCoding), dataCoding,
                pdu.smLength, UdhPresent(pdu), tc.expectedOutput);
  }

  /** validateTestCase as the program runs it: a result record that starts valid and is
      updated field by field, with an early return at each terminal failure. */
  method ValidateTestCase(t: Tables, index: int, tc: TestCase) returns (res: ValidationResult)
    requires Gsm.Loaded(t)
    ensures res == Validate(index, tc)
  {
    res := ValidationResult(index, true, [], 0, 0, "", false, []);
    var pdu, expected := tc.inputPdu, tc.expectedOutput;

    if DestinationMissing(pdu) {
      res := Reject(res, [MissingDestination], ErrorMentions(expected, "Missing required field"));
      MissingDestinationResult(index, tc);
      return;
    }
    res := MeasureAndReconcile(t, res, tc);
  }

  /** The rest of validateTestCase once the destination is present: measure the message,
      compare any declared sm_length, and reconcile with the expected output. */
  method MeasureAndReconcile(t: Tables, passed: ValidationResult, tc: TestCase) returns (res: ValidationResult)
    requires Gsm.Loaded(t) && !DestinationMissing(tc.inputPdu)
    requires passed == ValidationResult(passed.index, true, [], 0, 0, "", false, [])
    ensures res == Validate(passed.index, tc)
  {
    res := passed;
    var index, pdu, expected := passed.index, tc.inputPdu, tc.expectedOutput;
    var shortMsg := "";
    if pdu.shortMessage.Some? {
      shortMsg := pdu.shortMessage.value;
    }
    var dataCoding := 0;
    if pdu.dataCoding.Some? {
      dataCoding := pdu.dataCoding.value;
    }

    var computedLength, err := MeasureMessage(t, shortMsg, dataCoding);
    if err.Some? {
      res := Reject(res, [Incompatible, err.value], ErrorMentions(expected, "incompatible"));
      IncompatibleResult(index, tc);
      return;
    }
    res := CheckLength(res.(computedSmLength := computedLength), pdu.smLength, dataCoding, UdhPresent(pdu), expected);
  }

  /** The steps of validateTestCase after a successful length: compare any declared sm_length,
      then reconcile with the expected output. */
  method CheckLength(passed: ValidationResult, smLength: Option<int>, dataCoding: int, udhPresent: bool,
                     expected: ExpectedOutput) returns (res: ValidationResult)
    requires passed.valid && passed.errors == [] && passed.segments == 0 && passed.note == ""
    requires passed.mismatches == [] && !passed.expectedOutputMatch && passed.computedSmLength >= 0
    ensures res == Decide(passed.index, false, Success(passed.computedSmLength), dataCoding, smLength,
                          udhPresent, expected)
  {
    var computedLength := passed.computedSmLength;
    if smLength.Some? {
      if smLength.value != computedLength {
        var msg := SmLengthMismatch(smLength.value, computedLength);
        res := Reject(passed, [msg], ErrorMentions(expected, "sm_length indicates"));
        return;
      }
    }
    res := Reconcile(passed, expected, dataCoding, udhPresent);
  }

  /** A terminal failure of validateTestCase: the result is marked invalid, the errors are
      appended in order, the match flag is set as given, and the check ends. */
  method Reject(passed: ValidationResult, errors: seq<string>, matched: bool) returns (res: ValidationResult)
    requires passed.valid && passed.errors == [] && passed.segments == 0 && passed.note == ""
    requires passed.mismatches == [] && !passed.expectedOutputMatch
    ensures res == Rejected(passed.index, errors, passed.computedSmLength, matched)
  {
    res := passed.(valid := false);
    for i := 0 to |errors|
      invariant res == passed.(valid := false, errors := errors[..i])
    {
      assert errors[..i + 1] == errors[..i] + [errors[i]];
      res := res.(errors := res.errors + [errors[i]]);
    }
    assert errors[..|errors|] == errors;
    if matched {
      res := res.(expectedOutputMatch := true);
    }
  }

  /** The length step of validateTestCase: septets under data_coding 0 (failing on the first
      rune outside the GSM alphabets), UCS-2 bytes under 8, UTF-8 bytes otherwise. */
  method MeasureMessage(t: Tables, message: string, dataCoding: int) returns (computed: nat, err: Option<string>)
    requires Gsm.Loaded(t)
    ensures Lengths.SmLength(message, dataCoding).Failure? <==> err.Some?
    ensures err.Some? ==> computed == 0 && err.value == Gsm.NotRepresentable(Lengths.SmLength(message, dataCoding).error)
    ensures err.None? ==> computed == Lengths.SmLength(message, dataCoding).value
  {
    err := None;
    if dataCoding == 0 {
      var sep;
      sep, err := Gsm.Gsm7SeptetCount(t, message);
      computed := if err.Some? then 0 else sep;
    } else if dataCoding == 8 {
      computed := Lengths.Ucs2ByteLength(message);
    } else {
      computed := Lengths.Utf8ByteLength(message);
    }
  }

  /** The tail of validateTestCase for an input that passed: the segment count and the header
      note are filled in, then the expected delivery status and segment count are compared. */
  method Reconcile(passed: ValidationResult, expected: ExpectedOutput, dataCoding: int, udhPresent: bool)
    returns (res: ValidationResult)
    requires passed.valid && passed.errors == [] && passed.segments == 0 && passed.note == ""
    requires passed.mismatches == [] && passed.computedSmLength >= 0
    ensures res == Reconciled(passed.index, expected, passed.computedSmLength,
                              Lengths.ComputeSegments(dataCoding, udhPresent, passed.computedSmLength), udhPresent)
  {
    res := passed;
    var segments := Lengths.ComputeSegments(dataCoding, udhPresent, res.computedSmLength);
    res := res.(segments := segments);
    if udhPresent {
      res := res.(note := UdhNote);
    }

    var match_ := true;
    if StatusIs(expected, "accepted") && !res.valid {
      match_ := false;
    }
    if StatusIs(expected, "failed") && res.valid {
      match_ := false;
    }
    if expected.segments.Some? {
      if expected.segments.value != res.segments {
        match_ := false;
        ghost var mismatch := SegmentsMismatch(expected.segments.value, res.segments);
        res := res.(mismatches := res.mismatches + [SegmentsMismatch(expected.segments.value, res.segments)]);
        assert res.mismatches == [mismatch];
      }
    }
    res := res.(expectedOutputMatch := match_);
  }

  /** An input that passes every check is reconciled with its expected output. */
  lemma PassedResult(index: int, tc: TestCase, computed: nat)
    requires !DestinationMissing(tc.inputPdu)
    requires Lengths.SmLength(tc.inputPdu.shortMessage.GetOr(""), tc.inputPdu.dataCoding.GetOr(0)) == Success(computed)
    requires tc.inputPdu.smLength.Some? ==> tc.inputPdu.smLength.value == computed
    ensures Validate(index, tc)
            == Reconciled(index, tc.expectedOutput, computed,
                          Lengths.ComputeSegments(tc.inputPdu.dataCoding.GetOr(0), UdhPresent(tc.inputPdu), computed),
                          UdhPresent(tc.inputPdu))
  {
  }

  /** A blank or absent destination ends the check at once with exactly one error; nothing else
      about the input is looked at. */
  lemma MissingDestinationResult(index: int, tc: TestCase)
    requires DestinationMissing(tc.inputPdu)
    ensures Validate(index, tc) == ValidationResult(index, false, [MissingDestination], 0, 0, "",
                                                    ErrorMentions(tc.expectedOutput, "Missing required field"), [])
    ensures Validate(index, tc).expectedOutputMatch
            <==> tc.expectedOutput.error.Some?
                 && exists i :: Strings.OccursAt(tc.expectedOutput.error.value, "Missing required field", i)
  {
  }

  /** A rune outside both GSM alphabets under data_coding 0 (given or by default) gives two
      errors, the second naming the first such rune; no length and no segment is reported. */
  lemma IncompatibleResult(index: int, tc: TestCase)
    requires !DestinationMissing(tc.inputPdu)
    requires tc.inputPdu.dataCoding.GetOr(0) == 0
    requires Gsm.SeptetCount(tc.inputPdu.shortMessage.GetOr("")).Failure?
    ensures var r := Validate(index, tc);
            && !r.valid && r.computedSmLength == 0 && r.segments == 0
            && r.errors == [Incompatible, Gsm.NotRepresentable(Gsm.SeptetCount(tc.inputPdu.shortMessage.GetOr("")).error)]
            && (r.expectedOutputMatch <==> ErrorMentions(tc.expectedOutput, "incompatible"))
  {
  }

  /** A declared sm_length that differs from the computed length fails with the one error that
      quotes both, and still reports the computed length. */
  lemma SmLengthMismatchResult(index: int, tc: TestCase, computed: nat)
    requires !DestinationMissing(tc.inputPdu)
    requires Lengths.SmLength(tc.inputPdu.shortMessage.GetOr(""), tc.inputPdu.dataCoding.GetOr(0)) == Success(computed)
    requires tc.inputPdu.smLength.Some? && tc.inputPdu.smLength.value != computed
    ensures var r := Validate(index, tc);
            && !r.valid && r.computedSmLength == computed && r.segments == 0
            && r.errors == [SmLengthMismatch(tc.inputPdu.smLength.value, computed)]
            && (r.expectedOutputMatch <==> ErrorMentions(tc.expectedOutput, "sm_length indicates"))
  {
  }

  /** The sm_length message quotes both lengths in decimal: each reads back from its place. */
  lemma SmLengthMessageQuotes(declared: int, computed: int)
    ensures var m, d, c := SmLengthMismatch(declared, computed), Fmt.Decimal(declared), Fmt.Decimal(computed);
            var k := |"sm_length indicates "|;
            var j := k + |d| + |" bytes but actual short_message is "|;
            && j + |c| <= |m|
            && Fmt.ParseDecimal(m[k..k + |d|]) == declared
            && Fmt.ParseDecimal(m[j..j + |c|]) == computed
  {
    var m, d, c := SmLengthMismatch(declared, computed), Fmt.Decimal(declared), Fmt.Decimal(computed);
    var k := |"sm_length indicates "|;
    var j := k + |d| + |" bytes but actual short_message is "|;
    assert m[k..k + |d|] == d;
    assert m[j..j + |c|] == c;
    Fmt.DecimalRoundTrip(declared);
    Fmt.DecimalRoundTrip(computed);
  }

  /** An absent short_message is validated as the empty text, an absent data_coding as 0. */
  lemma AbsentFieldDefaults(index: int, tc: TestCase)
    ensures Validate(index, tc.(inputPdu := tc.inputPdu.(shortMessage := None)))
            == Validate(index, tc.(inputPdu := tc.inputPdu.(shortMessage := Some(""))))
    ensures Validate(index, tc.(inputPdu := tc.inputPdu.(dataCoding := None)))
            == Validate(index, tc.(inputPdu := tc.inputPdu.(dataCoding := Some(0))))
  {
  }

  /** An absent sm_length is not a zero one: with a non-empty UCS-2 message the first passes
      and the second fails. */
  lemma AbsentDiffersFromZero(index: int, tc: TestCase)
    requires !DestinationMissing(tc.inputPdu)
    requires tc.inputPdu.dataCoding == Some(Lengths.SixteenBit)
    requires tc.inputPdu.shortMessage.GetOr("") != ""
    ensures Validate(index, tc.(inputPdu := tc.inputPdu.(smLength := None))).valid
    ensures !Validate(index, tc.(inputPdu := tc.inputPdu.(smLength := Some(0)))).valid
  {
    Lengths.Ucs2ByteLengthBounds(tc.inputPdu.shortMessage.GetOr(""));
  }

  /** Under a data_coding other than 0 and 8 the computed length is the UTF-8 byte count. */
  lemma OtherCodingCountsUtf8Bytes(index: int, tc: TestCase)
    requires !DestinationMissing(tc.inputPdu)
    requires tc.inputPdu.dataCoding.Some? && tc.inputPdu.dataCoding.value !in {0, 8}
    requires tc.inputPdu.smLength.None?
    ensures Validate(index, tc).valid
    ensures Validate(index, tc).computedSmLength == Unicode.Utf8Len(tc.inputPdu.shortMessage.GetOr(""))
  {
  }

  /** The "accepted" comparison never fires: by then the result is valid, so an expected status
      of "accepted" gives the same result as no expected status at all. */
  lemma AcceptedNeverMismatches(index: int, tc: TestCase)
    requires StatusIs(tc.expectedOutput, "accepted")
    ensures Validate(index, tc) == Validate(index, tc.(expectedOutput := tc.expectedOutput.(deliveryStatus := None)))
  {
    var pdu := tc.inputPdu;
    var dataCoding := pdu.dataCoding.GetOr(Lengths.SevenBit);
    DecideIgnoresAccepted(index, DestinationMissing(pdu), Lengths.SmLength(pdu.shortMessage.GetOr(""), dataCoding),
                          dataCoding, pdu.smLength, UdhPresent(pdu), tc.expectedOutput);
  }

  lemma DecideIgnoresAccepted(index: int, missing: bool, length: Result<nat, char>, dataCoding: int,
                              smLength: Option<int>, udh: bool, expected: ExpectedOutput)
    requires StatusIs(expected, "accepted")
    ensures Decide(index, missing, length, dataCoding, smLength, udh, expected)
            == Decide(index, missing, length, dataCoding, smLength, udh, expected.(deliveryStatus := None))
  {
    var none := expected.(deliveryStatus := None);
    assert none.error == expected.error;
    if !missing && length.Success? && !(smLength.Some? && smLength.value != length.value) {
      var segments := Lengths.ComputeSegments(dataCoding, udh, length.value);
      ReconciledIgnoresAccepted(index, expected, length.value, segments, udh);
    }
  }

  lemma ReconciledIgnoresAccepted(index: int, expected: ExpectedOutput, computed: nat, segments: int, udh: bool)
    requires StatusIs(expected, "accepted")
    ensures Reconciled(index, expected, computed, segments, udh)
            == Reconciled(index, expected.(deliveryStatus := None), computed, segments, udh)
  {
    var none := expected.(deliveryStatus := None);
    var status := Strings.ToLower(Strings.TrimSpace(expected.deliveryStatus.value));
    assert |status| == 8;
    assert !StatusIs(expected, "failed");
    assert !StatusIs(none, "failed") && !StatusIs(none, "accepted");
  }

  /** Once the input passes, an expected status of "failed" always clears the match flag. */
  lemma FailedStatusClearsMatch(index: int, tc: TestCase)
    requires Validate(index, tc).valid
    requires StatusIs(tc.expectedOutput, "failed")
    ensures !Validate(index, tc).expectedOutputMatch
  {
    ValidIsReconciled(index, tc);
  }

  /** Once the input passes, an expected segment count that differs from the computed one is
      reported as the one mismatch and clears the match flag. */
  lemma SegmentsMismatchResult(index: int, tc: TestCase)
    requires Validate(index, tc).valid
    requires tc.expectedOutput.segments.Some?
    requires tc.expectedOutput.segments.value != Validate(index, tc).segments
    ensures var r := Validate(index, tc);
            && r.mismatches == [SegmentsMismatch(tc.expectedOutput.segments.value, r.segments)]
            && !r.expectedOutputMatch
  {
    ValidIsReconciled(index, tc);
  }

  /** Once the input passes, the segment count is the ceiling of the computed length over the
      capacity the data_coding and the header select. */
  lemma ValidSegments(index: int, tc: TestCase)
    requires Validate(index, tc).valid
    ensures var r := Validate(index, tc);
            r.segments == Lengths.ComputeSegments(tc.inputPdu.dataCoding.GetOr(0), UdhPresent(tc.inputPdu), r.computedSmLength)
  {
    ValidIsReconciled(index, tc);
  }
}
