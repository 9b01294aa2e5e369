/** Bounded rendering of external-process output: byte limits that never split a character. */
module ProcessOutput {
  import opened Wrappers
  import opened Seqs
  import opened Decoding
  import opened Utf8

  const TRUNCATION_MARKER: seq<Byte> :=
    [0x0A, 0x5B, 0x74, 0x72, 0x75, 0x6E, 0x63, 0x61, 0x74, 0x65, 0x64, 0x5D] // "\n[truncated]"
  const ELLIPSIS: seq<Byte> := [0x2E, 0x2E, 0x2E]

  // ----- Truncated diagnostics -----

  function CompleteUtf8Len(bytes: seq<Byte>): (n: nat)
    ensures n <= |bytes|
  {
    Utf8IsDecoder();
    CompletePrefixLen(NextUnit, bytes)
  }

  method CompleteUtf8PrefixLen(bytes: seq<Byte>) returns (n: nat)
    ensures n == CompleteUtf8Len(bytes)
  {
    Utf8IsDecoder();
    n := ScanCompletePrefix(NextUnit, bytes);
  }

  function Truncated(bytes: seq<Byte>, limit: nat): seq<Byte> {
    if |bytes| <= limit then LossyText(bytes)
    else LossyText(bytes[..CompleteUtf8Len(bytes[..limit])]) + TRUNCATION_MARKER
  }

  method TruncatedLossyMessage(bytes: seq<Byte>, limit: nat) returns (message: seq<Byte>)
    ensures message == Truncated(bytes, limit)
  {
    if |bytes| <= limit { return LossyText(bytes); }
    var prefix := bytes[..limit];
    var completePrefixLen := CompleteUtf8PrefixLen(prefix);
    TakeTake(bytes, limit, completePrefixLen);
    message := LossyText(prefix[..completePrefixLen]);
    message := message + TRUNCATION_MARKER;
  }

  ghost predicate UnitEndsAt(bytes: seq<Byte>, i: nat) {
    Utf8IsDecoder();
    Boundary(NextUnit, bytes, i)
  }

  /** At most three bytes below the limit are dropped, and only bytes that start a character cut off by it. */
  lemma {:induction false} FewBytesAreDropped(s: seq<Byte>)
    ensures |s| - CompleteUtf8Len(s) <= 3
    ensures CompleteUtf8Len(s) == |s| || Partial(s[CompleteUtf8Len(s)..])
  {
    Utf8IsDecoder();
    if s != [] {
      var len := NextUnit(s).len;
      UnitKinds(s, len);
      if NextUnit(s).Cut? {
        WholeSlices(s);
      } else {
        FewBytesAreDropped(s[len..]);
        DropDrop(s, len, CompleteUtf8Len(s[len..]));
      }
    }
  }

  /** Truncation follows decoding: before the marker stands a prefix of the lossy decoding of the whole input. It
      ends where a unit of the whole input ends, at most three bytes below the limit, and no other unit ends between
      it and the limit. */
  lemma TruncationFollowsDecoding(bytes: seq<Byte>, limit: nat)
    requires limit < |bytes|
    ensures exists n: nat ::
              limit - 3 <= n <= limit && UnitEndsAt(bytes, n)
              && Truncated(bytes, limit) == LossyText(bytes[..n]) + TRUNCATION_MARKER
              && LossyText(bytes) == LossyText(bytes[..n]) + LossyText(bytes[n..])
              && forall i: nat :: n < i < limit ==> !UnitEndsAt(bytes, i)
  {
    FewBytesAreDropped(bytes[..limit]);
    CutFollowsDecoding(bytes, limit, CompleteUtf8Len(bytes[..limit]));
  }

  /** Input within the limit is decoded as a whole, and text within the limit stays as it is. */
  lemma NothingIsCutWithinLimit(bytes: seq<Byte>, limit: nat)
    requires |bytes| <= limit
    ensures Truncated(bytes, limit) == LossyText(bytes)
    ensures IsText(bytes) ==> Truncated(bytes, limit) == bytes && WithEllipsis(bytes, limit) == bytes
  {
    LossyKeepsText(bytes);
  }

  lemma CutFollowsDecoding(bytes: seq<Byte>, limit: nat, n: nat)
    requires limit <= |bytes| && n == CompleteUtf8Len(bytes[..limit])
    ensures UnitEndsAt(bytes, n)
    ensures LossyText(bytes) == LossyText(bytes[..n]) + LossyText(bytes[n..])
    ensures forall i: nat :: n < i < limit ==> !UnitEndsAt(bytes, i)
  {
    Utf8IsDecoder();
    CuttingFollowsDecoding(NextUnit, REPLACEMENT, bytes, limit, n);
  }

  // ----- Truncation with an ellipsis -----

  predicate IsContinuation(b: Byte) { 0x80 <= b <= 0xBF }

  /** `str::is_char_boundary`. */
  predicate IsCharBoundary(s: seq<Byte>, i: nat) {
    i == 0 || i == |s| || (i < |s| && !IsContinuation(s[i]))
  }

  /** The greatest character boundary that is at most `limit`. */
  function LastBoundary(s: seq<Byte>, limit: nat): (i: nat)
    ensures i <= limit && IsCharBoundary(s, i)
    ensures forall j :: i < j <= limit ==> !IsCharBoundary(s, j)
  {
    if IsCharBoundary(s, limit) then limit else LastBoundary(s, limit - 1)
  }

  function WithEllipsis(s: seq<Byte>, limit: nat): seq<Byte> {
    if |s| <= limit then s else s[..LastBoundary(s, limit)] + ELLIPSIS
  }

  /** A `String` that its owner lets this module shorten. */
  class Message {
    var text: seq<Byte>

    constructor (text: seq<Byte>)
      ensures this.text == text
    {
      this.text := text;
    }

    method TruncateWithEllipsis(limit: nat)
      modifies this
      ensures text == WithEllipsis(old(text), limit)
    {
      if |text| <= limit { return; }
      var boundary := LastBoundary(text, limit);
      text := text[..boundary];
      text := text + ELLIPSIS;
    }
  }

  lemma TextStartsWithLead(s: seq<Byte>)
    requires IsText(s) && s != []
    ensures NextUnit(s).Char? && WellFormed(s[..NextUnit(s).len]) && !IsContinuation(s[0])
  {
    Utf8IsDecoder();
    UnitKinds(s, NextUnit(s).len);
  }

  lemma InsideFirstCharacter(s: seq<Byte>, i: nat)
    requires IsText(s) && 0 < i < NextUnit(s).len <= |s|
    ensures !IsCharBoundary(s, i) && !UnitEndsAt(s, i)
  {
    Utf8IsDecoder();
    TextStartsWithLead(s);
    var n := NextUnit(s).len;
    assert FitsAt(s[..n][0], i, s[..n][i]);
  }

  lemma BehindFirstCharacter(s: seq<Byte>, i: nat)
    requires IsText(s) && s != [] && NextUnit(s).len <= i <= |s|
    ensures var rest, k := s[NextUnit(s).len..], i - NextUnit(s).len;
            IsText(rest) && (UnitEndsAt(s, i) <==> UnitEndsAt(rest, k)) && (IsCharBoundary(s, i) <==> IsCharBoundary(rest, k))
  {
    Utf8IsDecoder();
    TextStartsWithLead(s);
    var n := NextUnit(s).len;
    if i == n && n < |s| {
      TextStartsWithLead(s[n..]);
    }
  }

  /** In valid text exactly the first bytes of characters are no continuation bytes. */
  lemma {:induction false} CharBoundariesAreUnitEnds(s: seq<Byte>, i: nat)
    requires IsText(s) && i <= |s|
    ensures IsCharBoundary(s, i) <==> UnitEndsAt(s, i)
  {
    if i != 0 {
      TextStartsWithLead(s);
      UnitKinds(s, 1);
      if i < NextUnit(s).len {
        InsideFirstCharacter(s, i);
      } else {
        BehindFirstCharacter(s, i);
        CharBoundariesAreUnitEnds(s[NextUnit(s).len..], i - NextUnit(s).len);
      }
    }
  }

  /** Valid text stays valid, loses at most three bytes below the limit, keeps the longest run of whole characters
      that fits, and both truncations cut it at the same place. */
  lemma EllipsisKeepsWholeCharacters(s: seq<Byte>, limit: nat)
    requires IsText(s) && limit < |s|
    ensures var n := LastBoundary(s, limit);
            WithEllipsis(s, limit) == s[..n] + ELLIPSIS && IsText(s[..n]) && limit - 3 <= n <= limit
            && n == CompleteUtf8Len(s[..limit])
            && forall j: nat :: n < j <= limit ==> !UnitEndsAt(s, j)
  {
    var n := LastBoundary(s, limit);
    CharBoundariesAreUnitEnds(s, n);
    forall j: nat | n < j <= limit ensures !UnitEndsAt(s, j) {
      CharBoundariesAreUnitEnds(s, j);
    }
    TextCutsAtLastBoundary(s, limit, n);
    FewBytesAreDropped(s[..limit]);
  }

  lemma TextCutsAtLastBoundary(s: seq<Byte>, limit: nat, n: nat)
    requires IsText(s) && limit <= |s|
    requires UnitEndsAt(s, n) && n <= limit && forall j: nat :: n < j <= limit ==> !UnitEndsAt(s, j)
    ensures IsText(s[..n]) && n == CompleteUtf8Len(s[..limit])
  {
    Utf8IsDecoder();
    forall j: nat | n < j <= limit ensures !Boundary(NextUnit, s, j) {
      assert !UnitEndsAt(s, j);
    }
    CuttingValidInput(NextUnit, s, limit, n);
  }
}
