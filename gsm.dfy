/** The GSM 03.38 character classifier and the septet count of a text under data_coding 0
    (3GPP TS 23.038, sections 6.2.1 and 6.2.1.1, as the practical subset the program uses). */
module Gsm {
  import opened Wrappers
  import opened Model
  import Fmt

  /** The default alphabet: one septet per character. */
  const DefaultAlphabet: string :=
    "@£$¥èéùìòÇ\nØø\rÅåΔ_ΦΓΛΩΠΨΣΘΞÆæßÉ !\"#¤%&'()*+,-./0123456789:;<=>?¡"
    + "ABCDEFGHIJKLMNOPQRSTUVWXYZÄÖÑÜ§¿abcdefghijklmnopqrstuvwxyzäöñüà"

  /** The extension table: an escape septet plus the character, two septets. */
  const ExtendedAlphabet: string := "^{}\\[~]|€"

  datatype CharClass = Default | Extended | Unrepresentable

  /** `r` is one of the runes of `alphabet`, looked up front to back. */
  function Occurs(alphabet: string, r: char): bool
    decreases |alphabet|
  {
    alphabet != [] && (alphabet[0] == r || Occurs(alphabet[1..], r))
  }

  lemma {:induction false} OccursIsIn(alphabet: string, r: char)
    ensures Occurs(alphabet, r) <==> r in alphabet
    decreases |alphabet|
  {
    if alphabet != [] {
      OccursIsIn(alphabet[1..], r);
      assert alphabet == [alphabet[0]] + alphabet[1..];
    }
  }

  /** The class of a rune; the default alphabet is consulted first. */
  function Classify(r: char): CharClass {
    if Occurs(DefaultAlphabet, r) then Default
    else if Occurs(ExtendedAlphabet, r) then Extended
    else Unrepresentable
  }

  /** The rune sets hold exactly the two alphabets, as `init` leaves them. */
  ghost predicate Loaded(t: Tables) {
    && (forall r :: Member(t.gsmDefault, r) <==> Occurs(DefaultAlphabet, r))
    && (forall r :: Member(t.gsmExtended, r) <==> Occurs(ExtendedAlphabet, r))
  }

  /** The package `init`: fills each rune set from its alphabet. */
  method Init() returns (t: Tables)
    ensures Loaded(t)
  {
    var gsmDefault := FillSet(DefaultAlphabet);
    var gsmExtended := FillSet(ExtendedAlphabet);
    t := Tables(gsmDefault, gsmExtended);
  }

  /** One loop of `init`: every rune of the alphabet is mapped to true, one at a time. */
  method FillSet(alphabet: string) returns (m: map<char, bool>)
    ensures forall r :: Member(m, r) <==> Occurs(alphabet, r)
  {
    m := map[];
    for i := 0 to |alphabet|
      invariant forall r :: Member(m, r) <==> r in alphabet[..i]
    {
      assert alphabet[..i + 1] == alphabet[..i] + [alphabet[i]];
      m := m[alphabet[i] := true];
    }
    assert alphabet[..|alphabet|] == alphabet;
    forall r
      ensures Member(m, r) <==> Occurs(alphabet, r)
    {
      OccursIsIn(alphabet, r);
    }
  }

  /** The septet count of a text, or the first rune neither alphabet holds. */
  function SeptetCount(s: string): Result<nat, char> {
    if s == [] then Success(0)
    else
      match Classify(s[0])
      case Unrepresentable => Failure(s[0])
      case k =>
        match SeptetCount(s[1..])
        case Failure(r) => Failure(r)
        case Success(n) => Success((if k == Default then 1 else 2) + n)
  }

  /** The number of extension-table runes in a text. */
  function ExtendedCount(s: string): nat {
    if s == [] then 0 else (if Classify(s[0]) == Extended then 1 else 0) + ExtendedCount(s[1..])
  }

  /** The error gsm7SeptetCount reports for a rune it cannot encode. */
  function NotRepresentable(r: char): string {
    "rune " + Fmt.CodePoint(r) + " (" + Fmt.QuoteRune(r) + ") not representable in GSM 03.38"
  }

  /** `count` added to a septet count; a failure stays as it is. */
  function Plus(c: Result<nat, char>, count: nat): Result<nat, char> {
    match c
    case Success(n) => Success(n + count)
    case Failure(r) => Failure(r)
  }

  /** gsm7SeptetCount: one septet per default rune, two per extended rune; at the first rune
      in neither set it stops with a zero count and the error. */
  method Gsm7SeptetCount(t: Tables, s: string) returns (count: int, err: Option<string>)
    requires Loaded(t)
    ensures SeptetCount(s).Success? ==> err == None && count == SeptetCount(s).value
    ensures SeptetCount(s).Failure? ==> count == 0 && err == Some(NotRepresentable(SeptetCount(s).error))
  {
    count := 0;
    var i := 0;
    while i < |s|
      invariant 0 <= i <= |s| && count >= 0
      invariant CountWith(t, s) == Plus(CountWith(t, s[i..]), count)
    {
      var r := s[i];
      CountWithStep(t, s, i, count);
      if Member(t.gsmDefault, r) {
        count := count + 1;
      } else if Member(t.gsmExtended, r) {
        count := count + 2;
      } else {
        CountWithLoaded(t, s);
        return 0, Some(NotRepresentable(r));
      }
      i := i + 1;
    }
    assert s[i..] == [];
    err := None;
    CountWithLoaded(t, s);
  }

  /** The class of a rune as the loaded tables give it: the default set is consulted first. */
  function ClassOf(t: Tables, r: char): CharClass {
    if Member(t.gsmDefault, r) then Default
    else if Member(t.gsmExtended, r) then Extended
    else Unrepresentable
  }

  /** The septet count of a text as the loop computes it, looking runes up in the tables. */
  function CountWith(t: Tables, s: string): Result<nat, char> {
    if s == [] then Success(0)
    else
      match ClassOf(t, s[0])
      case Unrepresentable => Failure(s[0])
      case k =>
        match CountWith(t, s[1..])
        case Failure(r) => Failure(r)
        case Success(n) => Success((if k == Default then 1 else 2) + n)
  }

  /** With the tables loaded, the loop's count is the septet count of the alphabets. */
  lemma {:induction false} CountWithLoaded(t: Tables, s: string)
    requires Loaded(t)
    ensures CountWith(t, s) == SeptetCount(s)
  {
    if s != [] {
      ClassByTables(t, s[0]);
      CountWithLoaded(t, s[1..]);
    }
  }

  /** One iteration of gsm7SeptetCount keeps the count owed by the rest of the text. */
  lemma CountWithStep(t: Tables, s: string, i: nat, count: nat)
    requires i < |s|
    requires CountWith(t, s) == Plus(CountWith(t, s[i..]), count)
    ensures ClassOf(t, s[i]) == Default ==> CountWith(t, s) == Plus(CountWith(t, s[i + 1..]), count + 1)
    ensures ClassOf(t, s[i]) == Extended ==> CountWith(t, s) == Plus(CountWith(t, s[i + 1..]), count + 2)
    ensures ClassOf(t, s[i]) == Unrepresentable ==> CountWith(t, s) == Failure(s[i])
  {
    var rest := s[i..];
    assert rest[0] == s[i] && rest[1..] == s[i + 1..];
    var tail := CountWith(t, s[i + 1..]);
    PlusPlus(tail, 1, count);
    PlusPlus(tail, 2, count);
  }

  /** The loaded tables classify a rune as `Classify` does. */
  lemma ClassByTables(t: Tables, r: char)
    requires Loaded(t)
    ensures Classify(r) == ClassOf(t, r)
  {
  }

  /** Adding two counts one after the other adds their sum. */
  lemma PlusPlus(c: Result<nat, char>, a: nat, b: nat)
    ensures Plus(Plus(c, a), b) == Plus(c, a + b)
  {
  }

  /** A text encodes exactly when every rune is in one of the alphabets, and then it takes one
      septet per rune plus one more per extension-table rune. */
  lemma {:induction false} SeptetCountSuccess(s: string)
    ensures SeptetCount(s).Success? <==> forall i :: 0 <= i < |s| ==> Classify(s[i]) != Unrepresentable
    ensures SeptetCount(s).Success? ==> SeptetCount(s).value == |s| + ExtendedCount(s)
  {
    if s != [] {
      SeptetCountSuccess(s[1..]);
      assert forall i :: 1 <= i < |s| ==> s[i] == s[1..][i - 1];
    }
  }

  /** On failure the reported rune is the first one neither alphabet holds. */
  lemma {:induction false} SeptetCountFirstFailure(s: string)
    requires SeptetCount(s).Failure?
    ensures exists i :: 0 <= i < |s| && s[i] == SeptetCount(s).error
                        && Classify(s[i]) == Unrepresentable
                        && forall j :: 0 <= j < i ==> Classify(s[j]) != Unrepresentable
  {
    if Classify(s[0]) != Unrepresentable {
      SeptetCountFirstFailure(s[1..]);
      var i :| 0 <= i < |s| - 1 && s[1..][i] == SeptetCount(s[1..]).error
               && Classify(s[1..][i]) == Unrepresentable
               && forall j :: 0 <= j < i ==> Classify(s[1..][j]) != Unrepresentable;
      assert forall j :: 1 <= j < i + 1 ==> s[j] == s[1..][j - 1];
      assert s[i + 1] == s[1..][i];
    }
  }

  /** Counting a concatenation: the first text's failure wins, then the second's, and
      otherwise the counts add up. */
  lemma {:induction false} SeptetCountAppend(a: string, b: string)
    ensures SeptetCount(a + b) ==
      match SeptetCount(a)
      case Failure(r) => Failure(r)
      case Success(n) => Plus(SeptetCount(b), n)
  {
    if a == [] {
      assert a + b == b;
    } else {
      assert (a + b)[0] == a[0] && (a + b)[1..] == a[1..] + b;
      SeptetCountAppend(a[1..], b);
    }
  }

  /** A text of default-alphabet runes only takes one septet per rune. */
  lemma {:induction false} AllDefaultCount(s: string)
    requires forall i :: 0 <= i < |s| ==> Classify(s[i]) == Default
    ensures SeptetCount(s) == Success(|s|)
  {
    if s != [] {
      assert Classify(s[0]) == Default;
      AllDefaultCount(s[1..]);
    }
  }

  /** Replacing a default rune by an extension-table rune costs exactly one more septet. */
  lemma ExtendedAddsOne(a: string, d: char, e: char, b: string)
    requires Classify(d) == Default && Classify(e) == Extended
    ensures SeptetCount(a + [e] + b) == Plus(SeptetCount(a + [d] + b), 1)
  {
    SeptetCountAppend(a + [e], b);
    SeptetCountAppend(a + [d], b);
    SeptetCountAppend(a, [e]);
    SeptetCountAppend(a, [d]);
    assert [e][1..] == [] && [d][1..] == [];
  }
}
