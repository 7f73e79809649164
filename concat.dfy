/** isConcatenatedDone: the completion test of a concatenated short message. Its counter is a
    byte, decremented once per filled slot, so the test compares the number of filled slots
    with the expected total modulo 256. */
module Concat {
  /** The number of slots holding a part; an empty text marks a slot not yet received. */
  function CountNonEmpty(parts: seq<string>): nat {
    if parts == [] then 0
    else CountNonEmpty(parts[..|parts| - 1]) + (if parts[|parts| - 1] != "" then 1 else 0)
  }

  /** The slots are complete for `total` parts: a byte counter starting at `total` reaches 0. */
  predicate Complete(parts: seq<string>, total: int) {
    CountNonEmpty(parts) % 256 == total
  }

  /** A byte decremented below zero wraps around to 255. */
  function ByteDec(b: int): (r: int)
    requires 0 <= b < 256
    ensures 0 <= r < 256
    ensures r == (b - 1) % 256
  {
    if b == 0 then 255 else b - 1
  }

  /** isConcatenatedDone as the program runs it: a byte counter decremented per filled slot. */
  method IsConcatenatedDone(parts: seq<string>, total: int) returns (done: bool)
    requires 0 <= total < 256
    ensures done <==> Complete(parts, total)
  {
    var t := total;
    for i := 0 to |parts|
      invariant 0 <= t < 256
      invariant t == (total - CountNonEmpty(parts[..i])) % 256
    {
      assert parts[..i + 1][..i] == parts[..i];
      if parts[i] != "" {
        t := ByteDec(t);
      }
    }
    assert parts[..|parts|] == parts;
    done := t == 0;
    ModZero(total, CountNonEmpty(parts));
  }

  /** Counting down from a byte reaches zero exactly when the count is that byte modulo 256. */
  lemma ModZero(total: int, count: nat)
    requires 0 <= total < 256
    ensures (total - count) % 256 == 0 <==> count % 256 == total
  {
    var q := count / 256;
    assert count == 256 * q + count % 256;
    assert total - count == 256 * (-q) + (total - count % 256);
  }

  /** No more slots are filled than there are slots; all are filled exactly when the count is
      the length. */
  lemma {:induction false} CountBounds(parts: seq<string>)
    ensures CountNonEmpty(parts) <= |parts|
    ensures CountNonEmpty(parts) == |parts| <==> forall i :: 0 <= i < |parts| ==> parts[i] != ""
  {
    if parts != [] {
      var init := parts[..|parts| - 1];
      CountBounds(init);
      if forall i :: 0 <= i < |parts| ==> parts[i] != "" {
        assert forall i :: 0 <= i < |init| ==> init[i] == parts[i];
      }
      if CountNonEmpty(parts) == |parts| {
        forall i | 0 <= i < |parts|
          ensures parts[i] != ""
        {
          if i < |init| {
            assert init[i] == parts[i];
          }
        }
      }
    }
  }

  /** With one slot per expected part, the test holds exactly when every slot is filled. */
  lemma CompleteIffAllFilled(parts: seq<string>, total: int)
    requires 0 <= total < 256 && |parts| == total
    ensures Complete(parts, total) <==> forall i :: 0 <= i < |parts| ==> parts[i] != ""
  {
    CountBounds(parts);
  }

  /** An empty payload is never counted: writing "" into a slot never raises the count, and
      lowers it by one when the slot held a part. */
  lemma {:induction false} EmptyPartNotCounted(parts: seq<string>, i: int)
    requires 0 <= i < |parts|
    ensures CountNonEmpty(parts[i := ""]) == CountNonEmpty(parts) - (if parts[i] != "" then 1 else 0)
    decreases |parts|
  {
    var last := |parts| - 1;
    if i == last {
      assert parts[i := ""][..last] == parts[..last];
    } else {
      assert parts[i := ""][..last] == parts[..last][i := ""];
      EmptyPartNotCounted(parts[..last], i);
    }
  }

  /** The filled count is the length less the number of empty slots. */
  lemma {:induction false} CountByMultiset(parts: seq<string>)
    ensures CountNonEmpty(parts) + multiset(parts)[""] == |parts|
  {
    if parts != [] {
      var init := parts[..|parts| - 1];
      assert parts == init + [parts[|parts| - 1]];
      CountByMultiset(init);
    }
  }

  /** The test depends only on how many slots are filled, not on their order or contents. */
  lemma OrderIrrelevant(a: seq<string>, b: seq<string>, total: int)
    requires multiset(a) == multiset(b)
    ensures Complete(a, total) == Complete(b, total)
  {
    CountByMultiset(a);
    CountByMultiset(b);
    assert |a| == |multiset(a)| == |b|;
  }

  /** The counter wraps: 256 filled slots complete a message expecting 0 parts. */
  lemma WrapsAt256(parts: seq<string>)
    requires |parts| == 256 && forall i :: 0 <= i < |parts| ==> parts[i] != ""
    ensures Complete(parts, 0)
  {
    CountBounds(parts);
  }
}
