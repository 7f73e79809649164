/** The reassembly of concatenated short messages shared by the three DeliverSM handlers: a map
    from an 8-bit reference number to one slot per expected part. The first part of a reference
    allocates the slots, each part fills slot `sequence - 1`, and once the completion test holds
    the slots are joined in order, emitted and forgotten. */
module Reassembly {
  import opened Wrappers
  import opened Model
  import Strings
  import Concat

  /** Parts received so far, by reference number; "" marks a slot not yet filled. */
  type Pending = map<int, seq<string>>

  /** What one delivery leaves behind: the new map and the text emitted, if any. */
  datatype Outcome = Outcome(pending: Pending, emitted: Option<string>)

  /** The slots for `reference`: the stored ones, or `totalParts` fresh empty ones. */
  function SlotsFor(m: Pending, totalParts: nat, reference: int): seq<string> {
    if reference in m then m[reference] else seq(totalParts, _ => "")
  }

  /** What the handlers assume of a delivery (the program panics otherwise): header fields are
      bytes and a concatenated part names an existing slot. */
  predicate Deliverable(m: Pending, found: bool, totalParts: int, sequence: int, reference: int) {
    && IsByte(totalParts) && IsByte(sequence) && IsByte(reference)
    && (found ==> 1 <= sequence <= |SlotsFor(m, totalParts, reference)|)
  }

  /** One DeliverSM: a message without concatenation information is emitted as it is; a part is
      stored in its slot, and completes the message when the slots pass the completion test. */
  function Step(m: Pending, message: string, found: bool, totalParts: int, sequence: int, reference: int)
    : Outcome
    requires Deliverable(m, found, totalParts, sequence, reference)
  {
    if !found then
      Outcome(m, Some(message))
    else
      var slots := SlotsFor(m, totalParts, reference)[sequence - 1 := message];
      if Concat.Complete(slots, totalParts) then
        Outcome(m - {reference}, Some(Strings.Join(slots)))
      else
        Outcome(m[reference := slots], None)
  }

  /** Every reference is a byte and holds fewer than 256 slots, so it fits a byte-sized count. */
  ghost predicate WellFormed(m: Pending) {
    forall r :: r in m ==> IsByte(r) && |m[r]| < 256
  }

  /** A message without concatenation information is emitted unchanged and the map stays. */
  lemma PlainMessagePassesThrough(m: Pending, message: string, totalParts: int, sequence: int, reference: int)
    requires Deliverable(m, false, totalParts, sequence, reference)
    ensures Step(m, message, false, totalParts, sequence, reference) == Outcome(m, Some(message))
  {
  }

  /** A part changes nothing but the entry of its own reference. */
  lemma OtherReferencesUntouched(m: Pending, message: string, found: bool, totalParts: int, sequence: int, reference: int)
    requires Deliverable(m, found, totalParts, sequence, reference)
    ensures var p := Step(m, message, found, totalParts, sequence, reference).pending;
            forall r :: r != reference ==> (r in p <==> r in m) && (r in m ==> p[r] == m[r])
  {
  }

  /** A part that does not complete its message stays stored: the slots of the reference are the
      previous ones (or `totalParts` empty ones for a first part) with slot `sequence - 1`
      overwritten, keeping their length, and nothing is emitted. */
  lemma PartIsStored(m: Pending, message: string, totalParts: int, sequence: int, reference: int)
    requires Deliverable(m, true, totalParts, sequence, reference)
    requires Step(m, message, true, totalParts, sequence, reference).emitted.None?
    ensures var p := Step(m, message, true, totalParts, sequence, reference).pending;
            var before := SlotsFor(m, totalParts, reference);
            && reference in p
            && |p[reference]| == |before|
            && (reference !in m ==> |p[reference]| == totalParts)
            && p[reference][sequence - 1] == message
            && forall i :: 0 <= i < |before| && i != sequence - 1 ==> p[reference][i] == before[i]
  {
  }

  /** A part that completes its message emits the slots joined in index order, emits nothing
      else, and forgets the reference, so the next part with it starts afresh. */
  lemma CompletionEmitsAndForgets(m: Pending, message: string, totalParts: int, sequence: int, reference: int)
    requires Deliverable(m, true, totalParts, sequence, reference)
    requires Step(m, message, true, totalParts, sequence, reference).emitted.Some?
    ensures var o := Step(m, message, true, totalParts, sequence, reference);
            var slots := SlotsFor(m, totalParts, reference)[sequence - 1 := message];
            && Concat.Complete(slots, totalParts)
            && o.emitted == Some(Strings.Join(slots))
            && reference !in o.pending
            && SlotsFor(o.pending, totalParts, reference) == seq(totalParts, _ => "")
  {
  }

  /** With as many slots as parts expected, the message is emitted exactly when its last empty
      slot is filled with a non-empty part. */
  lemma CompletesWhenAllFilled(m: Pending, message: string, totalParts: int, sequence: int, reference: int)
    requires Deliverable(m, true, totalParts, sequence, reference)
    requires |SlotsFor(m, totalParts, reference)| == totalParts
    ensures var slots := SlotsFor(m, totalParts, reference)[sequence - 1 := message];
            Step(m, message, true, totalParts, sequence, reference).emitted.Some?
            <==> forall i :: 0 <= i < |slots| ==> slots[i] != ""
  {
    Concat.CompleteIffAllFilled(SlotsFor(m, totalParts, reference)[sequence - 1 := message], totalParts);
  }

  /** A part with an empty payload never completes a message whose slots match its total. */
  lemma EmptyPayloadStalls(m: Pending, totalParts: int, sequence: int, reference: int)
    requires Deliverable(m, true, totalParts, sequence, reference)
    requires |SlotsFor(m, totalParts, reference)| == totalParts
    ensures Step(m, "", true, totalParts, sequence, reference).emitted.None?
  {
    CompletesWhenAllFilled(m, "", totalParts, sequence, reference);
    var slots := SlotsFor(m, totalParts, reference)[sequence - 1 := ""];
    assert slots[sequence - 1] == "";
  }

  /** Every delivery keeps the map well formed. */
  lemma StepKeepsWellFormed(m: Pending, message: string, found: bool, totalParts: int, sequence: int, reference: int)
    requires WellFormed(m)
    requires Deliverable(m, found, totalParts, sequence, reference)
    ensures WellFormed(Step(m, message, found, totalParts, sequence, reference).pending)
  {
  }

  /** Three parts of reference 7 arriving as 2, 1, 3 are held until the last and then emitted
      as "ABC", leaving nothing behind. */
  lemma OutOfOrderExample()
    ensures var o1 := Step(map[], "B", true, 3, 2, 7);
            var o2 := Step(o1.pending, "A", true, 3, 1, 7);
            var o3 := Step(o2.pending, "C", true, 3, 3, 7);
            && o1.emitted == None && o2.emitted == None
            && o3.emitted == Some("ABC") && o3.pending == map[]
  {
    var s1 := seq(3, _ => "")[1 := "B"];
    assert s1 == ["", "B", ""];
    assert Concat.CountNonEmpty(s1) == 1 by {
      assert s1[..2] == ["", "B"];
      assert s1[..2][..1] == [""];
      assert Concat.CountNonEmpty([""]) == 0;
    }
    var s2 := s1[0 := "A"];
    assert s2 == ["A", "B", ""];
    assert Concat.CountNonEmpty(s2) == 2 by {
      assert s2[..2] == ["A", "B"];
      assert s2[..2][..1] == ["A"];
      assert Concat.CountNonEmpty(["A"]) == 1;
    }
    var s3 := s2[2 := "C"];
    assert s3 == ["A", "B", "C"];
    assert Concat.CountNonEmpty(s3) == 3 by {
      assert s3[..2] == ["A", "B"];
      assert s3[..2][..1] == ["A"];
    }
    assert Strings.Join(s3) == "ABC" by {
      assert s3[..2] == ["A", "B"];
      assert s3[..2][..1] == ["A"];
      assert Strings.Join(["A"]) == "A";
    }
  }

  /** The test counts filled slots against the total the current part declares, not the number
      of slots: a part declaring 2 parts completes a reference whose first part declared 3, and
      the message is emitted without its third part. */
  lemma SmallerTotalCompletesEarly()
    ensures var o1 := Step(map[], "A", true, 3, 1, 7);
            var o2 := Step(o1.pending, "B", true, 2, 2, 7);
            && o1.emitted == None
            && o2.emitted == Some("AB")
  {
    var s1 := seq(3, _ => "")[0 := "A"];
    assert s1 == ["A", "", ""];
    assert Concat.CountNonEmpty(s1) == 1 by {
      assert s1[..2] == ["A", ""];
      assert s1[..2][..1] == ["A"];
      assert Concat.CountNonEmpty(["A"]) == 1;
    }
    var s2 := s1[1 := "B"];
    assert s2 == ["A", "B", ""];
    assert Concat.CountNonEmpty(s2) == 2 by {
      assert s2[..2] == ["A", "B"];
      assert s2[..2][..1] == ["A"];
      assert Concat.CountNonEmpty(["A"]) == 1;
    }
    assert Strings.Join(s2) == "AB" by {
      assert s2[..2] == ["A", "B"];
      assert s2[..2][..1] == ["A"];
      assert Strings.Join(["A"]) == "A";
    }
  }

  /** The closure-captured handler state of handlePDU: the reassembly map alone. */
  class Reassembler {
    var concatenated: Pending

    /** The handler starts with an empty map. */
    constructor()
      ensures concatenated == map[] && WellFormed(concatenated)
    {
      concatenated := map[];
    }

    /** The DeliverSM branch of handlePDU, given the decoded message and concatenation header:
        allocate on the first part, store the part, and on completion emit and forget. */
    method Deliver(message: string, found: bool, totalParts: int, sequence: int, reference: int)
      returns (emitted: Option<string>)
      requires WellFormed(concatenated)
      requires Deliverable(concatenated, found, totalParts, sequence, reference)
      modifies this
      ensures Outcome(concatenated, emitted) == Step(old(concatenated), message, found, totalParts, sequence, reference)
      ensures WellFormed(concatenated)
    {
      StepKeepsWellFormed(concatenated, message, found, totalParts, sequence, reference);
      if found {
        if reference !in concatenated {
          concatenated := concatenated[reference := seq(totalParts, _ => "")];
        }
        concatenated := concatenated[reference := concatenated[reference][sequence - 1 := message]];
      }
      emitted := None;
      if !found {
        emitted := Some(message);
      } else {
        var ok := reference in concatenated;
        var done := false;
        if ok {
          done := Concat.IsConcatenatedDone(concatenated[reference], totalParts);
        }
        if done {
          emitted := Some(Strings.Join(concatenated[reference]));
          concatenated := concatenated - {reference};
        }
      }
    }
  }
}
