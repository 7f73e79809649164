/** The test-runner side of the client: the check of a submit_sm_resp against the test case
    that produced the request, and the two comparison helpers beside it. */
module TestRun {
  import opened Wrappers
  import opened Model
  import Strings

  const TwoTo31 := 0x8000_0000
  const TwoTo32 := 0x1_0000_0000

  /** The fields of a submit_sm_resp the runner reads; the status is the header's 32-bit
      signed command_status. */
  datatype SubmitSmResp = SubmitSmResp(sequenceNumber: int, commandStatus: int, messageId: string)

  predicate IsInt32(n: int) {
    -TwoTo31 <= n < TwoTo31
  }

  /** Go's conversion `int32(n)`: keep the low 32 bits, read as two's complement. */
  function ToInt32(n: int): (r: int)
    ensures IsInt32(r)
    ensures (n - r) % TwoTo32 == 0
    ensures IsInt32(n) ==> r == n
  {
    var low := n % TwoTo32;
    if low < TwoTo31 then low else low - TwoTo32
  }

  /** Two integers convert to the same int32 exactly when they agree modulo 2^32. */
  lemma ToInt32Agrees(a: int, b: int)
    ensures ToInt32(a) == ToInt32(b) <==> (a - b) % TwoTo32 == 0
  {
    var ra, rb := ToInt32(a), ToInt32(b);
    var qa, qb := (a - ra) / TwoTo32, (b - rb) / TwoTo32;
    assert a - ra == TwoTo32 * qa;
    assert b - rb == TwoTo32 * qb;
    assert a - b == TwoTo32 * (qa - qb) + (ra - rb);
    if (a - b) % TwoTo32 == 0 {
      var q := (a - b) / TwoTo32;
      assert ra - rb == TwoTo32 * (q - qa + qb);
    }
  }

  /** The status check of a submit_sm_resp: the response fails its test case when a test case
      was tracked for its sequence number and the two statuses differ as int32 values. The
      tracked case must state an expected status (the program dereferences it unchecked). */
  function SubmitRespFailed(tracked: Option<TestCase>, status: int): (failed: bool)
    requires IsInt32(status)
    requires tracked.Some? ==> tracked.value.expectedOutput.commandStatus.Some?
    ensures failed ==> tracked.Some?
  {
    tracked.Some? && status != ToInt32(tracked.value.expectedOutput.commandStatus.value)
  }

  /** An expected status within the int32 range fails the response exactly when it differs. */
  lemma InRangeStatusCompared(tc: TestCase, status: int)
    requires IsInt32(status)
    requires tc.expectedOutput.commandStatus.Some? && IsInt32(tc.expectedOutput.commandStatus.value)
    ensures SubmitRespFailed(Some(tc), status) <==> status != tc.expectedOutput.commandStatus.value
  {
  }

  /** An expected status outside the int32 range is compared by its low 32 bits: it passes a
      response whose status agrees with it modulo 2^32. */
  lemma WideStatusTruncated(tc: TestCase, status: int)
    requires IsInt32(status)
    requires tc.expectedOutput.commandStatus.Some?
    ensures !SubmitRespFailed(Some(tc), status)
            <==> (tc.expectedOutput.commandStatus.value - status) % TwoTo32 == 0
  {
    ToInt32Agrees(tc.expectedOutput.commandStatus.value, status);
  }

  /** A response for an untracked sequence number never fails. */
  lemma UntrackedNeverFails(status: int)
    requires IsInt32(status)
    ensures !SubmitRespFailed(None, status)
  {
  }

  /** stringComparison: a case-insensitive substring test, `expected` within `actual`. */
  function StringComparison(expected: string, actual: string): (found: bool)
    ensures found <==> exists i :: Strings.OccursAt(Strings.ToLower(actual), Strings.ToLower(expected), i)
  {
    Strings.Contains(Strings.ToLower(actual), Strings.ToLower(expected))
  }

  /** Lower-casing either argument first changes nothing. */
  lemma ComparisonIgnoresCase(expected: string, actual: string)
    ensures StringComparison(Strings.ToLower(expected), actual) == StringComparison(expected, actual)
    ensures StringComparison(expected, Strings.ToLower(actual)) == StringComparison(expected, actual)
  {
    Strings.ToLowerIdempotent(expected);
    Strings.ToLowerIdempotent(actual);
  }

  /** Every text contains itself and the empty text, whatever the letter case. */
  lemma ComparisonReflexive(s: string, actual: string)
    ensures StringComparison(s, s)
    ensures StringComparison("", actual)
  {
    assert Strings.OccursAt(Strings.ToLower(s), Strings.ToLower(s), 0);
    assert Strings.OccursAt(Strings.ToLower(actual), Strings.ToLower(""), 0);
  }

  /** validateResponseWithExpectedOutput: a missing response fails, any response passes; every
      field comparison in it is disabled. */
  function ValidateResponseWithExpectedOutput(expected: ExpectedOutput, response: Option<SubmitSmResp>): bool {
    response.Some?
  }

  /** With every field comparison disabled, the expected output plays no part: two expectations
      give the same verdict on the same response, which passes exactly when it is present. */
  lemma ResponseCheckIgnoresExpected(e1: ExpectedOutput, e2: ExpectedOutput, response: Option<SubmitSmResp>)
    ensures ValidateResponseWithExpectedOutput(e1, response) == ValidateResponseWithExpectedOutput(e2, response)
    ensures ValidateResponseWithExpectedOutput(e1, response) <==> response.Some?
  {
  }
}
