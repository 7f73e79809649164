/** The SMPP client object: an optional session and the reassembly map of concatenated parts
    received from the SMSC. The session is seen only as present or absent; what the session
    itself answers is passed in. */
module SmppClient {
  import opened Wrappers
  import Fmt
  import Strings
  import Concat
  import Reassembly

  const NotConnected := "session not connected"

  /** The progress line written for a stored part that does not complete its message. */
  function StoredPart(sequence: int, totalParts: int, reference: int): string {
    "Stored part " + Fmt.Decimal(sequence) + "/" + Fmt.Decimal(totalParts) + " for reference " + Fmt.Decimal(reference)
  }

  class Client {
    /** Whether a session has been opened (a non-nil session pointer). */
    var connected: bool
    var concatenated: Reassembly.Pending

    /** NewClient: no session yet and an empty reassembly map. */
    constructor()
      ensures !connected && concatenated == map[] && Reassembly.WellFormed(concatenated)
    {
      connected := false;
      concatenated := map[];
    }

    /** Close: without a session there is nothing to close and no error; otherwise the error is
        whatever closing the session reports. */
    method Close(sessionClose: Option<string>) returns (err: Option<string>)
      ensures !connected ==> err == None
      ensures connected ==> err == sessionClose
    {
      if !connected {
        return None;
      }
      err := sessionClose;
    }

    /** SendSMS: without a session the submission fails with "session not connected";
        otherwise the error is whatever the session's submit reports. */
    method SendSMS(submitResult: Option<string>) returns (err: Option<string>)
      ensures !connected ==> err == Some(NotConnected)
      ensures connected ==> err == submitResult
    {
      if !connected {
        return Some(NotConnected);
      }
      err := submitResult;
    }

    /** The DeliverSM branch of onPDU, given the decoded message (None when decoding failed) and
        the concatenation header. A failed decoding changes nothing; otherwise the delivery is one
        reassembly step, and a stored part that does not complete its message yields a progress
        line. */
    method OnDeliverSM(message: Option<string>, found: bool, totalParts: int, sequence: int, reference: int)
      returns (emitted: Option<string>, progress: Option<string>)
      requires Reassembly.WellFormed(concatenated)
      requires message.Some? ==> Reassembly.Deliverable(concatenated, found, totalParts, sequence, reference)
      modifies this
      ensures connected == old(connected)
      ensures message.None? ==> concatenated == old(concatenated) && emitted.None? && progress.None?
      ensures message.Some? ==>
                Reassembly.Outcome(concatenated, emitted)
                == Reassembly.Step(old(concatenated), message.value, found, totalParts, sequence, reference)
      ensures progress == if message.Some? && found && emitted.None?
                          then Some(StoredPart(sequence, totalParts, reference)) else None
      ensures Reassembly.WellFormed(concatenated)
    {
      emitted, progress := None, None;
      if message.None? {
        return;
      }
      Reassembly.StepKeepsWellFormed(concatenated, message.value, found, totalParts, sequence, reference);
      var text := message.value;
      if found {
        if reference !in concatenated {
          concatenated := concatenated[reference := seq(totalParts, _ => "")];
        }
        concatenated := concatenated[reference := concatenated[reference][sequence - 1 := text]];
        var done := Concat.IsConcatenatedDone(concatenated[reference], totalParts);
        if done {
          var parts := concatenated[reference];
          concatenated := concatenated - {reference};
          emitted := Some(Strings.Join(parts));
        } else {
          progress := Some(StoredPart(sequence, totalParts, reference));
        }
      } else {
        emitted := Some(text);
      }
    }
  }

  /** The progress line quotes the part number, the total and the reference in decimal, each of
      which reads back from its place. */
  lemma StoredPartQuotes(sequence: int, totalParts: int, reference: int)
    ensures var line, s, t, r := StoredPart(sequence, totalParts, reference), Fmt.Decimal(sequence),
                                 Fmt.Decimal(totalParts), Fmt.Decimal(reference);
            var i := |"Stored part "|;
            var j := i + |s| + 1;
            var k := j + |t| + |" for reference "|;
            && k + |r| == |line|
            && Fmt.ParseDecimal(line[i..i + |s|]) == sequence
            && Fmt.ParseDecimal(line[j..j + |t|]) == totalParts
            && Fmt.ParseDecimal(line[k..]) == reference
  {
    var line, s, t, r := StoredPart(sequence, totalParts, reference), Fmt.Decimal(sequence),
                         Fmt.Decimal(totalParts), Fmt.Decimal(reference);
    var i := |"Stored part "|;
    var j := i + |s| + 1;
    var k := j + |t| + |" for reference "|;
    assert line[i..i + |s|] == s;
    assert line[j..j + |t|] == t;
    assert line[k..] == r;
    Fmt.DecimalRoundTrip(sequence);
    Fmt.DecimalRoundTrip(totalParts);
    Fmt.DecimalRoundTrip(reference);
  }
}
