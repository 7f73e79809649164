/** The records the validator reads and writes. Every field of the input and expected-output
    objects is optional, so an absent field stays distinct from a zero or an empty text. */
module Model {
  import opened Wrappers

  /** The "input_pdu" object of a test case: the SMPP submit_sm parameters plus an optional
      user data header. Integers are Go's 64-bit `int`, left unbounded here. */
  datatype InputPdu = InputPdu(
    commandId: Option<string>,
    serviceType: Option<string>,
    sourceAddrTon: Option<int>,
    sourceAddrNpi: Option<int>,
    sourceAddr: Option<string>,
    destAddrTon: Option<int>,
    destAddrNpi: Option<int>,
    destinationAddr: Option<string>,
    esmClass: Option<int>,
    protocolId: Option<int>,
    priorityFlag: Option<int>,
    registeredDelivery: Option<int>,
    replaceIfPresentFlag: Option<int>,
    dataCoding: Option<int>,       // SMPP data_coding: 0 is GSM 7-bit, 8 is UCS-2 (UTF-16BE)
    encoding: Option<string>,      // "7-bit" or "16-bit", informational only
    smLength: Option<int>,
    shortMessage: Option<string>,
    udh: Option<string>)

  /** The "expected_output_pdu" object of a test case. */
  datatype ExpectedOutput = ExpectedOutput(
    commandId: Option<string>,
    commandStatus: Option<int>,
    messageId: Option<string>,
    error: Option<string>,
    deliveryStatus: Option<string>,
    segments: Option<int>)

  /** One test case: an id, one input PDU and what it is expected to produce. */
  datatype TestCase = TestCase(testCaseId: int, inputPdu: InputPdu, expectedOutput: ExpectedOutput)

  /** The outcome of validating one test case; an empty `note` stands for an omitted one. */
  datatype ValidationResult = ValidationResult(
    index: int,
    valid: bool,
    errors: seq<string>,
    computedSmLength: int,
    segments: int,
    note: string,
    expectedOutputMatch: bool,
    mismatches: seq<string>)

  /** The two rune sets of the GSM 03.38 alphabet, as the program's globals hold them. */
  datatype Tables = Tables(gsmDefault: map<char, bool>, gsmExtended: map<char, bool>)

  /** A Go map lookup `m[r]`: an absent key reads as false. */
  predicate Member(m: map<char, bool>, r: char) {
    r in m && m[r]
  }

  /** A Go `uint8`: a UTF-8 code unit, or a field of the concatenation header. */
  predicate IsByte(n: int) {
    0 <= n < 0x100
  }
}
