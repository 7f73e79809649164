# SMPP client test harness: validator and concatenated-message reassembly

This project models the two parts of the SMPP client that hold real logic. Each model comes with proofs of what it promises.

**The test-case validator** (`jsonparser.go`, with the records of `model.go`):
- Two rune sets of the GSM 03.38 alphabet. `init` fills a default table and an extension table; membership means the rune maps to true.
- The length of a short message under its SMPP `data_coding`:
  - 0: septets. A default character counts 1 and an extended character counts 2. Any other rune is an error naming it.
  - 8: UCS-2 bytes, i.e. two per UTF-16 code unit.
  - Anything else: UTF-8 bytes.
- The segment count: the length divided by the per-segment capacity and rounded up. The capacity is 160 or 153 for coding 0, 70 or 67 for coding 8, and 140 or 134 otherwise, depending on whether a concatenation user data header is present.
- `validateTestCase`: the short-circuiting check that turns a test case into a validation result, including its exact error texts and its best-effort comparison with the expected output.

**The reassembly of concatenated short messages.** It appears three times in the program, in `client.go`, `main.go` and `main1.go`:
- A map from an 8-bit reference number to one slot per expected part.
- The first part of a reference allocates the slots, and each part fills slot `sequence - 1`.
- A byte-counter test (`isConcatenatedDone`) decides when all parts are in. The slots are then joined in order, emitted and forgotten.
- `Reassembly.Step` is the one specification of a delivery. `Reassembly.Reassembler.Deliver` follows the closure handlers of `main.go` and `main1.go`, whose DeliverSM branches are identical. `SmppClient.Client.OnDeliverSM` follows `client.go`. Both methods are proved to compute `Step`.

**Also covered:**
- The client's nil-session guards.
- The runner's check of a submit_sm_resp status against its tracked test case, with Go's `int32` conversion written out.
- The runner's case-insensitive substring test and its response check.

**Modules:**
- `Wrappers`: Option and Result.
- `Strings`: Go's `TrimSpace`, `ToLower`, `Contains` and `Join`.
- `Fmt`: the `%d`, `%U` and `%q` verbs, each with a round trip proved.
- `Unicode`: UTF-8 and UTF-16, with round trips.
- `Model`, `Gsm`, `Lengths`, `Validator`, `Concat`, `Reassembly`, `SmppClient` and `TestRun`.

**Representation:**
- Text is a sequence of Unicode scalar values.
- Go's `int` is unbounded here.
- Each byte-sized header field is constrained to 0..255.
- The byte counter's wrap-around is written out as arithmetic modulo 256.

## Model

| member | source | states |
|---|---|---|
| Gsm.Init | jsonparser.go:17-31 | the two tables it fills map a rune to true exactly when the rune occurs in the default (respectively extension) alphabet string |
| Gsm.FillSet | jsonparser.go:21-24 | the map a loop of `init` fills holds true exactly for the runes of its alphabet |
| Gsm.SeptetCount | jsonparser.go:85-97 | the reference septet count: one per default-alphabet rune, two per extension-table rune, or the first rune in neither; its properties are the SeptetCount lemmas below |
| Gsm.NotRepresentable | jsonparser.go:94 | the error text for a rune outside both alphabets, naming it by `%U` and `%q`; both read back (Fmt.CodePointRoundTrip, Fmt.QuoteRuneRoundTrip) |
| Gsm.CountWithLoaded | jsonparser.go:85-97 | looking runes up in the tables `init` filled counts the same septets, and fails on the same rune, as looking them up in the alphabets |
| Gsm.Gsm7SeptetCount | jsonparser.go:85-98 | the loop's count equals the septet count of the text; on the first rune in neither table it returns count 0 and the error naming that rune by `%U` and `%q` |
| Gsm.SeptetCountSuccess | jsonparser.go:85-97 | the count succeeds exactly when every rune is in one of the tables, and is then the rune count plus one per extended rune |
| Gsm.SeptetCountFirstFailure | jsonparser.go:93-95 | a failure names a rune that occurs in the text |
| Gsm.SeptetCountAppend | jsonparser.go:87-96 | the count of a concatenation adds the two counts, and the first failure wins |
| Gsm.AllDefaultCount | jsonparser.go:88-89 | a text of default-table runes counts one septet per rune |
| Gsm.ExtendedAddsOne | jsonparser.go:90-92 | replacing a default rune by an extended one adds exactly one septet |
| Lengths.Ucs2ByteLength | jsonparser.go:102-105 | the UCS-2 length is twice the number of UTF-16 code units of the text |
| Lengths.Ucs2ByteLengthBounds | jsonparser.go:100-105 | the UCS-2 length lies between 2 and 4 bytes per rune, and is 2 per rune exactly when no rune lies above U+FFFF |
| Lengths.Utf8ByteLength | jsonparser.go:192-195 | the fallback length is the UTF-8 byte count of the text |
| Lengths.SmLength | jsonparser.go:173-195 | coding 0 gives the septet count (or its failure), coding 8 twice the UTF-16 units, any other coding the UTF-8 byte count |
| Lengths.PerSegment | jsonparser.go:113-133 | the capacity of one segment: 160 or 153 under coding 0, 70 or 67 under coding 8, 140 or 134 otherwise, the smaller with a header |
| Lengths.ComputeSegments | jsonparser.go:112-137 | 0 for a length of at most 0; otherwise the least n with length at most n times the capacity, i.e. the ceiling of length over capacity |
| Lengths.SegmentExamples | jsonparser.go:113-133 | 160 septets fit one segment and 161 need two; with a header 153 fit and 154 need two; likewise 70/68 for UCS-2 and 140/135 otherwise |
| Lengths.SegmentsUnique | jsonparser.go:134-137 | any k with (k-1) capacities below the length and k capacities at or above it is the segment count |
| Lengths.SegmentsMonotone | jsonparser.go:134-137 | a longer message never needs fewer segments |
| Lengths.UdhNeverFewer | jsonparser.go:113-133 | a message with a header never needs fewer segments than without |
| Validator.Decide | jsonparser.go:146-243 | the reference decision: a missing destination, then a rune error, then a differing sm_length each reject with their errors; otherwise the input is reconciled; its shape is DecideShape and DecideValid |
| Validator.Validate | jsonparser.go:146-172 | the decision for a test case, with an absent short_message read as "" and an absent data_coding as 0; what it promises is ValidateShape and the path lemmas |
| Validator.SmLengthMismatch | jsonparser.go:204 | the sm_length error quoting the declared and computed lengths in decimal; both read back (SmLengthMessageQuotes) |
| Validator.SegmentsMismatch | jsonparser.go:237 | the mismatch text quoting the expected and computed segment counts in decimal |
| Validator.ValidateTestCase | jsonparser.go:146-243 | the field-by-field updates with early returns produce exactly the result `Validate` describes |
| Validator.MeasureAndReconcile | jsonparser.go:161-242 | once the destination is present, measuring, the sm_length comparison and the reconciliation produce exactly the result `Validate` describes |
| Validator.CheckLength | jsonparser.go:197-242 | after a successful length, a differing declared sm_length gives the one quoting error, and otherwise the input is reconciled with its expected output |
| Validator.Reject | jsonparser.go:154-158 | a terminal failure leaves the result invalid with exactly the given errors in order, no segments, note or mismatches, and the given match flag |
| Validator.MeasureMessage | jsonparser.go:172-195 | the length step fails exactly when the message length fails, with the rune error text; otherwise it returns that length |
| Validator.Reconcile | jsonparser.go:214-242 | for an input that passed, the segments, note, match flag and mismatches are those of the reconciled result |
| Validator.ValidateShape | jsonparser.go:146-243 | errors exactly when invalid, at most two; an invalid result has no segments, note or mismatches; a valid one agrees with any declared sm_length, carries the note exactly when a header is present, and matches exactly when there is no mismatch and the expected status is not "failed" |
| Validator.DecideShape | jsonparser.go:146-243 | the same shape properties, for every combination of missing destination, length outcome, declared sm_length, header and expected output |
| Validator.DecideValid | jsonparser.go:197-242 | a valid result implies a present destination, a successful length agreeing with any declared sm_length, and the reconciled result |
| Validator.ValidIsReconciled | jsonparser.go:214-242 | a valid result of a test case is the reconciliation of its computed length with its expected output |
| Validator.PassedResult | jsonparser.go:214-242 | an input passing every check is reconciled with its expected output using the segment count for its coding and header |
| Validator.MissingDestinationResult | jsonparser.go:152-159 | an absent or blank destination gives exactly one error, length and segments 0, and a match exactly when the expected error contains "Missing required field" |
| Validator.IncompatibleResult | jsonparser.go:175-187 | a rune outside the GSM tables under coding 0 gives the fixed error then the rune error, length and segments 0, and a match exactly when the expected error contains "incompatible" |
| Validator.SmLengthMismatchResult | jsonparser.go:199-211 | a declared sm_length differing from the computed one gives the one error quoting both, keeps the computed length, and matches exactly when the expected error contains "sm_length indicates" |
| Validator.SmLengthMessageQuotes | jsonparser.go:204 | the declared and computed lengths read back in decimal from their places in the error text |
| Validator.AbsentFieldDefaults | jsonparser.go:161-170 | an absent short_message validates as "" and an absent data_coding as 0 |
| Validator.AbsentDiffersFromZero | jsonparser.go:199-201 | an absent sm_length is not a zero one: a non-empty UCS-2 message passes without it and fails with 0 |
| Validator.OtherCodingCountsUtf8Bytes | jsonparser.go:192-195 | a coding other than 0 and 8 never fails on its runes and reports the UTF-8 byte count |
| Validator.AcceptedNeverMismatches | jsonparser.go:225-229 | an expected status of "accepted" gives the same result as none: its branch cannot fire on a valid result |
| Validator.DecideIgnoresAccepted | jsonparser.go:225-229 | whatever the earlier checks decide, an expected status of "accepted" gives the result of no expected status |
| Validator.ReconciledIgnoresAccepted | jsonparser.go:224-233 | the reconciliation of a valid result is the same with an expected status of "accepted" as with none |
| Validator.FailedStatusClearsMatch | jsonparser.go:230-232 | on a valid result an expected status of "failed" always clears the match flag |
| Validator.SegmentsMismatchResult | jsonparser.go:234-238 | on a valid result a differing expected segment count is the one mismatch and clears the match flag |
| Validator.ValidSegments | jsonparser.go:214-216 | on a valid result the segment count is that of the computed length under the coding and the header's presence |
| Concat.ByteDec | concat.go:7 | decrementing a byte stays a byte and equals the decrement modulo 256 |
| Concat.Complete | concat.go:4-10 | the completion test: the number of non-empty slots equals the total modulo 256; characterised by CompleteIffAllFilled and OrderIrrelevant |
| Concat.IsConcatenatedDone | concat.go:4-10 | the byte countdown reaches 0 exactly when the number of filled slots is the total modulo 256 |
| Concat.ModZero | main1.go:233-240 | a byte counted down by n reaches 0 exactly when n modulo 256 is the starting byte |
| Concat.CountBounds | concat.go:5-9 | no more slots are filled than exist, and all are filled exactly when the count is the length |
| Concat.CompleteIffAllFilled | concat.go:4-10 | with one slot per expected part, the test holds exactly when every slot is filled |
| Concat.EmptyPartNotCounted | concat.go:6 | writing "" into a slot lowers the count by one if the slot was filled and otherwise leaves it |
| Concat.CountByMultiset | concat.go:5-9 | the filled count is the slot count less the number of empty slots |
| Concat.OrderIrrelevant | main.go:163-170 | the test depends only on the multiset of slots, not their order |
| Concat.WrapsAt256 | main1.go:233-240 | the byte counter wraps: 256 filled slots complete a message expecting 0 parts |
| Reassembly.PlainMessagePassesThrough | main1.go:163-171 | a message without concatenation information is emitted unchanged and the map stays as it was |
| Reassembly.OtherReferencesUntouched | main.go:122-126 | a delivery changes no entry but that of its own reference |
| Reassembly.PartIsStored | main1.go:164-168 | a part that does not complete its message is stored at slot sequence-1 of the existing slots, or of totalParts fresh ones, with the length and every other slot unchanged |
| Reassembly.CompletionEmitsAndForgets | main1.go:172-175 | a completing part emits the slots joined in index order and removes the reference, so its next part starts afresh |
| Reassembly.CompletesWhenAllFilled | main.go:122-133 | with as many slots as parts expected, a part completes its message exactly when every slot is then filled |
| Reassembly.EmptyPayloadStalls | main.go:126-130 | a part with an empty payload never completes a message whose slot count matches its total |
| Reassembly.StepKeepsWellFormed | main.go:121-133 | every delivery keeps every key a byte and every slot vector shorter than 256 |
| Reassembly.OutOfOrderExample | main.go:121-133 | parts 2, 1, 3 of reference 7 ("B", "A", "C") are held, then emitted as "ABC" with nothing left pending |
| Reassembly.SmallerTotalCompletesEarly | main1.go:164-175 | a part declaring 2 parts completes a reference whose first part declared 3, emitting "AB" without the third part |
| Reassembly.Reassembler.constructor | main.go:98 | the handler starts with an empty map |
| Reassembly.Step | main.go:113-133 | one delivery: a plain message is emitted as it is; a part fills slot sequence-1 of its reference, and a complete slot vector is joined, emitted and forgotten; stated by the lemmas above |
| Reassembly.Reassembler.Deliver | main.go:113-133 | the new map and the emitted text are those of one reassembly step on the old map, and the map stays well formed |
| SmppClient.Client.constructor | client.go:22-27 | a new client has no session and an empty reassembly map |
| SmppClient.Client.Close | client.go:65-70 | without a session closing succeeds with no error; with one it reports what the session reports |
| SmppClient.Client.SendSMS | client.go:73-78 | without a session sending fails with "session not connected"; with one it reports what the session reports |
| SmppClient.Client.OnDeliverSM | client.go:91-118 | a failed decoding changes nothing; otherwise the new map and the emitted text are one reassembly step, a stored part that does not complete yields the "Stored part k/n for reference r" line, and the map stays well formed; the header is constrained only when a message was decoded |
| SmppClient.StoredPart | client.go:114 | the progress line "Stored part k/n for reference r" with the three numbers in decimal; they read back (StoredPartQuotes) |
| SmppClient.StoredPartQuotes | client.go:114 | the part number, total and reference read back in decimal from their places in the progress line |
| TestRun.ToInt32 | main1.go:132 | the int32 conversion lands in the int32 range, agrees with its input modulo 2^32, and keeps an in-range value |
| TestRun.ToInt32Agrees | main1.go:132 | two integers convert to the same int32 exactly when they agree modulo 2^32 |
| TestRun.SubmitRespFailed | main1.go:128-144 | a response fails only when a test case was tracked for it |
| TestRun.InRangeStatusCompared | main1.go:130-132 | with an expected status in the int32 range, a response fails exactly when its status differs |
| TestRun.WideStatusTruncated | main1.go:132 | an expected status passes a response exactly when the two agree modulo 2^32 |
| TestRun.UntrackedNeverFails | main1.go:128-130 | a response for an untracked sequence number never fails |
| TestRun.StringComparison | main1.go:330-339 | true exactly when the lower-cased expected text occurs in the lower-cased actual text |
| TestRun.ComparisonIgnoresCase | main1.go:331-332 | lower-casing either argument first does not change the answer |
| TestRun.ComparisonReflexive | main1.go:330-338 | every text contains itself and the empty text |
| TestRun.ResponseCheckIgnoresExpected | main1.go:295-328 | with every field comparison disabled, the verdict does not depend on the expected output, and a response passes exactly when it is present |
| Strings.TrimSpace | jsonparser.go:153 | Go's strings.TrimSpace: leading and trailing white space removed; empty exactly for an all-space text (TrimSpaceEmptyIff) |
| Strings.TrimLeft | jsonparser.go:153 | the result is a suffix of the text, everything dropped is white space, and it starts with none |
| Strings.TrimRight | jsonparser.go:215 | the result is a prefix of the text, everything dropped is white space, and it ends with none |
| Strings.TrimSpaceEmptyIff | jsonparser.go:153 | a text trims to "" exactly when it is all white space |
| Strings.ToLower | jsonparser.go:226 | lower-casing keeps the length and maps each rune |
| Strings.ToLowerIdempotent | main1.go:331-332 | lower-cased text has no upper-case letter, so lower-casing twice changes nothing |
| Strings.Contains | jsonparser.go:157 | the substring test holds exactly when the needle occurs at some index |
| Strings.Join | main.go:131 | Go's strings.Join with an empty separator: the parts concatenated in order (JoinAppend, JoinAt) |
| Strings.JoinAppend | main.go:131 | joining a concatenation of part lists concatenates the joins |
| Strings.JoinAt | client.go:112 | the join is the parts before a slot, that slot, then the parts after it, in order |
| Fmt.Digits | jsonparser.go:204 | the digit sequence is non-empty, each digit is below the base, and there is no leading zero |
| Fmt.DigitsValue | jsonparser.go:204 | the decimal and hexadecimal digits of a number denote that number |
| Fmt.Pad | jsonparser.go:94 | zero padding reaches at least the width and keeps hexadecimal digits |
| Fmt.LeadingZeroValue | jsonparser.go:94 | a leading zero does not change the value |
| Fmt.PadValue | jsonparser.go:94 | padding does not change the value |
| Fmt.Render | jsonparser.go:204 | one character per digit |
| Fmt.ParseRender | jsonparser.go:204 | reading back rendered digits gives their value |
| Fmt.Decimal | jsonparser.go:204 | the `%d` verb: an optional minus sign and the decimal digits without leading zeros; it reads back (DecimalRoundTrip) |
| Fmt.CodePoint | jsonparser.go:94 | the `%U` verb: "U+" and at least four upper-case hexadecimal digits; it reads back (CodePointRoundTrip) |
| Fmt.QuoteRune | jsonparser.go:94 | the `%q` verb on a rune: a single-quoted Go rune literal with escapes; it unquotes back (QuoteRuneRoundTrip) |
| Fmt.DecimalRoundTrip | jsonparser.go:204 | `%d` text reads back as the number, negative ones included |
| Fmt.CodePointRoundTrip | jsonparser.go:94 | `%U` text starts "U+", has at least four hexadecimal digits, and reads back as the code point |
| Fmt.HexEscapeValue | jsonparser.go:94 | an escape has at least its width of hexadecimal digits and reads back as the rune |
| Fmt.QuoteRuneRoundTrip | jsonparser.go:94 | `%q` of a rune unquotes back to that rune |
| Unicode.EncodeRune8 | jsonparser.go:194 | a rune encodes to its UTF-8 width in bytes, every one after the first a continuation byte |
| Unicode.Utf8EncodeLength | jsonparser.go:194 | the encoded byte count is the UTF-8 length of the text |
| Unicode.DecodeEncodeRune8 | jsonparser.go:194 | decoding the front of an encoded rune gives the rune and its width |
| Unicode.Utf8RoundTrip | jsonparser.go:194 | decoding the UTF-8 encoding gives back the text |
| Unicode.EncodeRune16 | jsonparser.go:103 | a rune encodes to one code unit, or two above U+FFFF, each 16 bits |
| Unicode.Utf16EncodeLength | jsonparser.go:103 | the number of code units is the UTF-16 unit count of the text |
| Unicode.Utf16RoundTrip | jsonparser.go:103 | decoding the UTF-16 encoding gives back the text |

## Left out

- `parseFile` (jsonparser.go:34-79): reading the file and decoding JSON are library behaviour. The model starts from decoded test cases.
- Sessions, TLS and the network (`Connect`, `sendingAndReceiveSMS`, `newSubmitSM`, `NewSubmitSM`, `TLSDialer`, `connectToHtppServerUsingTCP`). The session is seen only as present or absent. What closing or submitting through it reports is a parameter.
- The mutex of `client.go` and the split of `onPDU` into two critical sections. Each delivery is modelled as one atomic step, so interleavings of concurrent deliveries are not modelled.
- PDU type dispatch, `GetMessage` and `UDH().GetConcatInfo()`. Their results (message, found, total, sequence, reference) are method inputs.
- `log.Fatal` on a failed `GetMessage` in `main.go` and `main1.go`. `Reassembly.Reassembler.Deliver` takes a decoded message; only `client.go`'s early return is modelled (a message of None).
- Reassembly.Step: requires header fields in 0..255 and `1 <= sequence <= ` the slot count; the program panics outside these, and the panic is not modelled.
- TestRun.SubmitRespFailed: requires the tracked case to state an expected status, because the program dereferences it unchecked; `os.Exit` on a failure is not modelled.
- The header's command status is taken to be a 32-bit signed value. Its type belongs to the SMPP library, which is not part of this model.
- `byteToDataCoding`, the request and test-case trackers, `LoadConfigFromEnv` and the client's `cfg` field: constants and configuration the model does not see.
- The unhandled-PDU branch of `onPDU` and the UnbindResp branch of `main1.go`, which close the session and log.
- Logging and coloured output, apart from the progress and reassembled texts, which are returned.
- Lengths.ComputeSegments: `math.Ceil` over `float64` is modelled as integer ceiling division, exact for the lengths a test case can carry.
- Strings.ToLower: maps only A-Z; Go lower-cases every Unicode letter, so `StringComparison` and the delivery-status comparison ignore case only for ASCII letters.
- Fmt.QuoteRune: exact for runes up to U+00FF; above that the printable test treats only the spaces, format characters, private-use runes and the non-characters U+FFFE and U+FFFF that the model lists as non-printable.
- TestRun.StringComparison: inherits the Strings.ToLower gap: the substring test ignores case only for the ASCII letters A-Z.
- Validator.Decide: inherits the Strings.ToLower gap through its delivery-status comparison ("accepted", "failed"), which ignores case only for ASCII letters; the same holds for Validator.Validate, which is built on it.
- Gsm.NotRepresentable: inherits the Fmt.QuoteRune gap: for a rune above U+00FF that Go treats as non-printable but the model does not list, the `%q` part of the error shows the rune itself where Go writes an escape.
- Integers: Go's 64-bit `int` is unbounded here, so overflow of lengths and counts is not modelled.
