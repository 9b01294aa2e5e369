/** UTF-8 as a decoder: well-formed sequences (Table 3-7 of the Unicode Standard) and the maximal
    subparts of ill-formed ones (its section 3.9). */
module Utf8 {
  import opened Wrappers
  import opened Decoding

  // ----- Table 3-7 -----

  /** Length of the well-formed sequences that start with `lead`; zero when there is none. */
  function SequenceLen(lead: Byte): (n: nat)
    ensures n <= 4
  {
    if lead <= 0x7F then 1
    else if 0xC2 <= lead <= 0xDF then 2
    else if 0xE0 <= lead <= 0xEF then 3
    else if 0xF0 <= lead <= 0xF4 then 4
    else 0
  }

  /** Whether `b` may stand at position `i` of a sequence that starts with `lead`. */
  predicate FitsAt(lead: Byte, i: nat, b: Byte) {
    if i == 1 && lead == 0xE0 then 0xA0 <= b <= 0xBF
    else if i == 1 && lead == 0xED then 0x80 <= b <= 0x9F
    else if i == 1 && lead == 0xF0 then 0x90 <= b <= 0xBF
    else if i == 1 && lead == 0xF4 then 0x80 <= b <= 0x8F
    else 0x80 <= b <= 0xBF
  }

  predicate WellFormed(s: seq<Byte>) {
    s != [] && SequenceLen(s[0]) == |s| && forall i :: 1 <= i < |s| ==> FitsAt(s[0], i, s[i])
  }

  /** A proper, non-empty initial part of a well-formed sequence. */
  predicate Partial(s: seq<Byte>) {
    s != [] && |s| < SequenceLen(s[0]) && forall i :: 1 <= i < |s| ==> FitsAt(s[0], i, s[i])
  }

  /** Bytes that complete a sequence from position `i` on. */
  function Completion(lead: Byte, i: nat): (t: seq<Byte>)
    requires 1 <= i < SequenceLen(lead)
    ensures |t| == SequenceLen(lead) - i
    ensures forall j :: 0 <= j < |t| ==> FitsAt(lead, i + j, t[j])
  {
    seq(SequenceLen(lead) - i,
        j requires 0 <= j => if i + j == 1 && lead == 0xE0 then 0xA0 else if i + j == 1 && lead == 0xF0 then 0x90 else 0x80)
  }

  /** The name is deserved: exactly the partial sequences can be completed by more bytes. */
  lemma PartialMeansExtensible(s: seq<Byte>)
    requires s != []
    ensures Partial(s) <==> exists t :: t != [] && WellFormed(s + t)
  {
    if Partial(s) {
      var t := Completion(s[0], |s|);
      assert WellFormed(s + t);
    }
    if t :| t != [] && WellFormed(s + t) {
      assert (s + t)[0] == s[0];
      forall i | 1 <= i < |s| ensures FitsAt(s[0], i, s[i]) {
        assert (s + t)[i] == s[i];
      }
    }
  }

  // ----- The decoder -----

  /** Number of bytes from position `i` on that fit their places in the sequence. */
  function Matched(s: seq<Byte>, i: nat): (m: nat)
    requires s != [] && 1 <= i <= |s| && i <= SequenceLen(s[0])
    requires forall j :: 1 <= j < i ==> FitsAt(s[0], j, s[j])
    ensures i <= m <= |s| && m <= SequenceLen(s[0])
    ensures forall j :: 1 <= j < m ==> FitsAt(s[0], j, s[j])
    ensures m < |s| && m < SequenceLen(s[0]) ==> !FitsAt(s[0], m, s[m])
    decreases |s| - i
  {
    if i < |s| && i < SequenceLen(s[0]) && FitsAt(s[0], i, s[i]) then Matched(s, i + 1) else i
  }

  /** The first unit of the input. */
  function NextUnit(s: seq<Byte>): (u: Unit) {
    if s == [] then Cut(0)
    else if SequenceLen(s[0]) == 0 then Bad(1)
    else
      var m := Matched(s, 1);
      if m == SequenceLen(s[0]) then Char(m) else if m == |s| then Cut(m) else Bad(m)
  }

  /** A character starts the input exactly when some initial part of it is well-formed; the input cuts a
      character off exactly when all of it is a partial sequence; and every unit but a character is short. */
  lemma UnitKinds(s: seq<Byte>, n: nat)
    requires s != [] && 1 <= n <= |s|
    ensures 1 <= NextUnit(s).len <= |s|
    ensures WellFormed(s[..n]) <==> NextUnit(s) == Char(n)
    ensures Partial(s) <==> NextUnit(s).Cut?
    ensures NextUnit(s).Cut? ==> NextUnit(s).len == |s|
    ensures !NextUnit(s).Char? ==> NextUnit(s).len <= 3
  {
    var len := SequenceLen(s[0]);
    if len != 0 && n == len {
      var m := Matched(s, 1);
      if m < n {
        assert !FitsAt(s[0], m, s[..n][m]);
      }
    }
  }

  /** An ill-formed part is a maximal subpart: it cannot be extended, and it is either one byte or the start
      of some well-formed sequence. */
  lemma BadIsMaximalSubpart(s: seq<Byte>)
    requires s != [] && NextUnit(s).Bad?
    ensures var n := NextUnit(s).len;
            1 <= n <= |s| && (n == 1 || Partial(s[..n]))
            && forall k :: n < k <= |s| ==> !Partial(s[..k]) && !WellFormed(s[..k])
  {
    var n := NextUnit(s).len;
    forall k | n < k <= |s| ensures !Partial(s[..k]) && !WellFormed(s[..k]) {
      if SequenceLen(s[0]) != 0 {
        assert !FitsAt(s[0], n, s[n]) && s[..k][n] == s[n];
      }
    }
  }

  lemma {:induction false} MatchedIsStable(s: seq<Byte>, t: seq<Byte>, i: nat)
    requires s != [] && 1 <= i <= |s| && i <= SequenceLen(s[0])
    requires forall j :: 1 <= j < i ==> FitsAt(s[0], j, s[j])
    ensures forall j :: 1 <= j < i ==> FitsAt(s[0], j, (s + t)[j])
    ensures Matched(s, i) <= Matched(s + t, i)
    ensures Matched(s, i) < |s| || Matched(s, i) == SequenceLen(s[0]) ==> Matched(s + t, i) == Matched(s, i)
    decreases |s| - i
  {
    if i < |s| && i < SequenceLen(s[0]) && FitsAt(s[0], i, s[i]) {
      MatchedIsStable(s, t, i + 1);
    }
  }

  /** More input never changes a unit that the input does not cut off, and lengthens a character that it does. */
  lemma UnitsAreStable(s: seq<Byte>, t: seq<Byte>)
    requires s != []
    ensures !NextUnit(s).Cut? ==> NextUnit(s + t) == NextUnit(s)
    ensures NextUnit(s).Cut? ==> |s| <= NextUnit(s + t).len && (NextUnit(s + t).Char? ==> |s| < NextUnit(s + t).len)
  {
    if SequenceLen(s[0]) != 0 {
      MatchedIsStable(s, t, 1);
    }
  }

  lemma Utf8IsDecoder()
    ensures IsDecoder(NextUnit)
  {
    forall s: seq<Byte> | s != []
      ensures 1 <= NextUnit(s).len <= |s| && (NextUnit(s).Cut? ==> NextUnit(s).len == |s|)
    {
      UnitKinds(s, 1);
    }
    forall s: seq<Byte>, t: seq<Byte> | s != []
      ensures !NextUnit(s).Cut? ==> NextUnit(s + t) == NextUnit(s)
      ensures NextUnit(s).Cut? ==> |s| <= NextUnit(s + t).len && (NextUnit(s + t).Char? ==> |s| < NextUnit(s + t).len)
    {
      UnitsAreStable(s, t);
    }
  }

  // ----- Text -----

  const REPLACEMENT: seq<Byte> := [0xEF, 0xBF, 0xBD] // U+FFFD

  /** `String::from_utf8_lossy`. */
  function LossyText(s: seq<Byte>): seq<Byte> {
    Utf8IsDecoder();
    Lossy(NextUnit, REPLACEMENT, s)
  }

  /** `std::str::from_utf8` succeeds. */
  ghost predicate IsText(s: seq<Byte>) {
    Utf8IsDecoder();
    Valid(NextUnit, s)
  }

  lemma SequenceIsText(s: seq<Byte>)
    requires WellFormed(s)
    ensures IsText(s)
  {
    Utf8IsDecoder();
    assert s[..|s|] == s;
    UnitKinds(s, |s|);
    OneCharacterIsValid(NextUnit, s);
  }

  /** Lossy decoding always yields well-formed text. */
  lemma {:induction false} LossyTextIsText(s: seq<Byte>)
    ensures IsText(LossyText(s))
  {
    Utf8IsDecoder();
    if s != [] {
      var u := NextUnit(s);
      var rest := s[u.len..];
      LossyTextIsText(rest);
      UnitKinds(s, u.len);
      assert WellFormed(REPLACEMENT);
      var head := if u.Char? then s[..u.len] else REPLACEMENT;
      SequenceIsText(head);
      ValidConcat(NextUnit, head, LossyText(rest));
    }
  }

  /** Well-formed text decodes to itself. */
  lemma LossyKeepsText(s: seq<Byte>)
    ensures IsText(s) ==> LossyText(s) == s
  {
    Utf8IsDecoder();
    if IsText(s) { ValidInputDecodesToItself(NextUnit, REPLACEMENT, s); }
  }

  /** Decoding goes unit by unit: a character stays, and anything else becomes one U+FFFD. */
  lemma LossyStep(s: seq<Byte>)
    requires s != []
    ensures var n := NextUnit(s).len;
            1 <= n <= |s|
            && LossyText(s) == (if WellFormed(s[..n]) then s[..n] else [0xEF, 0xBF, 0xBD]) + LossyText(s[n..])
    ensures LossyText([]) == []
  {
    Utf8IsDecoder();
    UnitKinds(s, NextUnit(s).len);
  }
}
