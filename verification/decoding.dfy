/** Scanning with any decoder that splits a first unit off its input and whose choice more input never
    changes. UTF-8 is one such decoder. */
module Decoding {
  import opened Wrappers
  import opened Seqs

  /** How the input starts: with a character, with an ill-formed part, or with a part that its end cuts off. */
  datatype Unit = Char(len: nat) | Bad(len: nat) | Cut(len: nat)

  type Decoder<!T> = seq<T> -> Unit

  /** A decoder consumes at least one element, sees a cut only at the end, keeps its answer when more input
      follows, and turns a cut into a unit that is at least as long and is longer if it is a character. */
  ghost predicate IsDecoder<T(!new)>(unit: Decoder<T>) {
    (forall s :: s != [] ==> 1 <= unit(s).len <= |s|)
    && (forall s :: s != [] && unit(s).Cut? ==> unit(s).len == |s|)
    && (forall s, t :: s != [] && !unit(s).Cut? ==> unit(s + t) == unit(s))
    && (forall s, t :: s != [] && unit(s).Cut? ==>
          |s| <= unit(s + t).len && (unit(s + t).Char? ==> |s| < unit(s + t).len))
  }

  /** Length of the input without the part that its end cuts off. */
  function CompletePrefixLen<T(!new)>(unit: Decoder<T>, s: seq<T>): (n: nat)
    requires IsDecoder(unit)
    ensures n <= |s|
    decreases |s|
  {
    if s == [] || unit(s).Cut? then 0 else unit(s).len + CompletePrefixLen(unit, s[unit(s).len..])
  }

  /** Where validation stopped, and how many elements are ill-formed; none when the input ends early. */
  datatype DecodeError = DecodeError(validUpTo: nat, errorLen: Option<nat>)

  /** Strict validation: the first unit that is no character is an error. */
  function Validate<T(!new)>(unit: Decoder<T>, s: seq<T>): (r: Option<DecodeError>)
    requires IsDecoder(unit)
    ensures r.Some? ==> r.value.validUpTo <= |s|
    decreases |s|
  {
    if s == [] then None
    else
      match unit(s)
      case Bad(n) => Some(DecodeError(0, Some(n)))
      case Cut(n) => Some(DecodeError(0, None))
      case Char(n) =>
        match Validate(unit, s[n..])
        case None => None
        case Some(e) => Some(DecodeError(n + e.validUpTo, e.errorLen))
  }

  ghost predicate Valid<T(!new)>(unit: Decoder<T>, s: seq<T>)
    requires IsDecoder(unit)
  {
    Validate(unit, s).None?
  }

  /** Lossy decoding: every part that is no character becomes one replacement. */
  function Lossy<T(!new)>(unit: Decoder<T>, replacement: seq<T>, s: seq<T>): seq<T>
    requires IsDecoder(unit)
    decreases |s|
  {
    if s == [] then []
    else (if unit(s).Char? then s[..unit(s).len] else replacement) + Lossy(unit, replacement, s[unit(s).len..])
  }

  /** Position `i` is where a decoder that starts at the beginning ends one unit and starts the next. */
  ghost predicate Boundary<T(!new)>(unit: Decoder<T>, s: seq<T>, i: nat)
    requires IsDecoder(unit)
    decreases |s|
  {
    i == 0 || (s != [] && unit(s).len <= i && Boundary(unit, s[unit(s).len..], i - unit(s).len))
  }

  // ----- Validation drives the scan -----

  /** Without an error, or with an early end, validation tells the length of the complete prefix. */
  lemma {:induction false} CompletePrefixOfLastScan<T(!new)>(unit: Decoder<T>, s: seq<T>)
    requires IsDecoder(unit)
    requires Validate(unit, s).Some? ==> Validate(unit, s).value.errorLen.None?
    ensures CompletePrefixLen(unit, s) == if Validate(unit, s).Some? then Validate(unit, s).value.validUpTo else |s|
    decreases |s|
  {
    if s != [] && unit(s).Char? {
      CompletePrefixOfLastScan(unit, s[unit(s).len..]);
    }
  }

  lemma FirstUnitScanned<T(!new)>(unit: Decoder<T>, s: seq<T>)
    requires IsDecoder(unit) && s != [] && !unit(s).Cut?
    ensures GoesOnBehind(unit, s, unit(s).len)
  {
  }

  lemma ErrorBehindCharacter<T(!new)>(unit: Decoder<T>, s: seq<T>, at: nat, len: nat)
    requires IsDecoder(unit) && s != [] && unit(s).Char? && Validate(unit, s) == Some(DecodeError(at, Some(len)))
    ensures unit(s).len <= |s| && unit(s).len <= at
    ensures Validate(unit, s[unit(s).len..]) == Some(DecodeError(at - unit(s).len, Some(len)))
  {
  }

  /** After an error inside the input the scan goes on behind it. */
  ghost predicate GoesOnBehind<T(!new)>(unit: Decoder<T>, s: seq<T>, k: nat)
    requires IsDecoder(unit)
  {
    0 < k <= |s| && CompletePrefixLen(unit, s) == k + CompletePrefixLen(unit, s[k..])
  }

  lemma {:induction false} CompletePrefixAfterError<T(!new)>(unit: Decoder<T>, s: seq<T>, at: nat, len: nat)
    requires IsDecoder(unit) && Validate(unit, s) == Some(DecodeError(at, Some(len)))
    ensures 1 <= len && GoesOnBehind(unit, s, at + len)
    decreases |s|
  {
    FirstUnitScanned(unit, s);
    var n := unit(s).len;
    if unit(s).Char? {
      ErrorBehindCharacter(unit, s, at, len);
      CompletePrefixAfterError(unit, s[n..], at - n, len);
      GoesOnBehindBoth(unit, s, n, at - n + len);
    }
  }

  lemma GoesOnBehindBoth<T(!new)>(unit: Decoder<T>, s: seq<T>, n: nat, k: nat)
    requires IsDecoder(unit) && GoesOnBehind(unit, s, n) && GoesOnBehind(unit, s[n..], k)
    ensures GoesOnBehind(unit, s, n + k)
  {
    DropDrop(s, n, k);
  }

  /** End of the complete prefix, when everything before `offset` has been scanned. */
  ghost function ScanEnd<T(!new)>(unit: Decoder<T>, s: seq<T>, offset: nat): nat
    requires IsDecoder(unit) && offset <= |s|
  {
    offset + CompletePrefixLen(unit, s[offset..])
  }

  lemma ScanStops<T(!new)>(unit: Decoder<T>, s: seq<T>, offset: nat)
    requires IsDecoder(unit) && offset <= |s|
    requires Validate(unit, s[offset..]).Some? ==> Validate(unit, s[offset..]).value.errorLen.None?
    ensures ScanEnd(unit, s, offset)
         == if Validate(unit, s[offset..]).Some? then offset + Validate(unit, s[offset..]).value.validUpTo else |s|
  {
    CompletePrefixOfLastScan(unit, s[offset..]);
  }

  lemma ScanGoesOn<T(!new)>(unit: Decoder<T>, s: seq<T>, offset: nat, at: nat, len: nat)
    requires IsDecoder(unit) && offset <= |s| && Validate(unit, s[offset..]) == Some(DecodeError(at, Some(len)))
    ensures offset < offset + at + len <= |s|
    ensures ScanEnd(unit, s, offset) == ScanEnd(unit, s, offset + at + len)
  {
    CompletePrefixAfterError(unit, s[offset..], at, len);
    DropDrop(s, offset, at + len);
  }

  /** Finds the complete prefix by validating from one ill-formed part to the next. */
  method ScanCompletePrefix<T(!new)>(unit: Decoder<T>, s: seq<T>) returns (n: nat)
    requires IsDecoder(unit)
    ensures n == CompletePrefixLen(unit, s)
  {
    var offset := 0;
    ghost var end := CompletePrefixLen(unit, s);
    assert s[0..] == s;
    while offset < |s|
      invariant offset <= |s| && ScanEnd(unit, s, offset) == end
      decreases |s| - offset
    {
      var result := Validate(unit, s[offset..]);
      if result.None? {
        ScanStops(unit, s, offset);
        return |s|;
      }
      var invalidStart := offset + result.value.validUpTo;
      if result.value.errorLen.None? {
        ScanStops(unit, s, offset);
        return invalidStart;
      }
      ScanGoesOn(unit, s, offset, result.value.validUpTo, result.value.errorLen.value);
      offset := invalidStart + result.value.errorLen.value;
    }
    return |s|;
  }

  // ----- Prefixes and boundaries -----

  /** A prefix that holds the whole first unit starts with a unit of the same length, a character if it was one. */
  lemma FirstUnitOfPrefix<T(!new)>(unit: Decoder<T>, s: seq<T>, n: nat)
    requires IsDecoder(unit) && s != [] && unit(s).len <= n <= |s|
    ensures unit(s[..n]).len == unit(s).len && unit(s[..n]).Char? == unit(s).Char?
  {
    SplitAt(s, n);
    assert unit(s) == unit(s[..n] + s[n..]);
  }

  /** The complete prefix of the first `limit` elements ends where a unit of the whole input ends. */
  lemma {:induction false} PrefixEndsAtBoundary<T(!new)>(unit: Decoder<T>, s: seq<T>, limit: nat)
    requires IsDecoder(unit) && limit <= |s|
    ensures Boundary(unit, s, CompletePrefixLen(unit, s[..limit]))
    decreases |s|
  {
    var prefix := s[..limit];
    if prefix != [] && !unit(prefix).Cut? {
      var len := unit(prefix).len;
      SplitAt(s, limit);
      assert unit(s) == unit(prefix + s[limit..]);
      TakeDrop(s, limit, len);
      PrefixEndsAtBoundary(unit, s[len..], limit - len);
    }
  }

  /** No unit of the whole input ends strictly between the complete prefix and the limit. */
  lemma {:induction false} CutIsLatest<T(!new)>(unit: Decoder<T>, s: seq<T>, limit: nat, i: nat)
    requires IsDecoder(unit) && limit <= |s| && Boundary(unit, s, i) && i < limit
    ensures i <= CompletePrefixLen(unit, s[..limit])
    decreases |s|
  {
    var prefix := s[..limit];
    if i != 0 {
      var len := unit(s).len;
      SplitAt(s, limit);
      assert unit(s) == unit(prefix + s[limit..]);
      TakeDrop(s, limit, len);
      CutIsLatest(unit, s[len..], limit - len, i - len);
    }
  }

  /** Lossy decoding splits at every boundary. */
  lemma {:induction false} LossySplits<T(!new)>(unit: Decoder<T>, replacement: seq<T>, s: seq<T>, i: nat)
    requires IsDecoder(unit) && i <= |s| && Boundary(unit, s, i)
    ensures Lossy(unit, replacement, s) == Lossy(unit, replacement, s[..i]) + Lossy(unit, replacement, s[i..])
    decreases |s|
  {
    if i == 0 {
      WholeSlices(s);
    } else {
      var len := unit(s).len;
      var rest := s[len..];
      FirstUnitOfPrefix(unit, s, i);
      LossySplits(unit, replacement, rest, i - len);
      TakeTake(s, i, len);
      TakeDrop(s, i, len);
      DropDrop(s, len, i - len);
      ConcatAssociates(if unit(s).Char? then s[..len] else replacement,
                       Lossy(unit, replacement, rest[..i - len]), Lossy(unit, replacement, s[i..]));
    }
  }

  /** Cutting at the complete prefix of the first `limit` elements agrees with decoding everything. */
  lemma CuttingFollowsDecoding<T(!new)>(unit: Decoder<T>, replacement: seq<T>, s: seq<T>, limit: nat, n: nat)
    requires IsDecoder(unit) && limit <= |s| && n == CompletePrefixLen(unit, s[..limit])
    ensures Boundary(unit, s, n)
    ensures Lossy(unit, replacement, s) == Lossy(unit, replacement, s[..n]) + Lossy(unit, replacement, s[n..])
    ensures forall i: nat :: n < i < limit ==> !Boundary(unit, s, i)
  {
    PrefixEndsAtBoundary(unit, s, limit);
    LossySplits(unit, replacement, s, n);
    forall i: nat | n < i < limit ensures !Boundary(unit, s, i) {
      if Boundary(unit, s, i) {
        CutIsLatest(unit, s, limit, i);
      }
    }
  }

  /** In valid input the complete prefix of the first `limit` elements is the last boundary up to `limit`. */
  lemma CuttingValidInput<T(!new)>(unit: Decoder<T>, s: seq<T>, limit: nat, n: nat)
    requires IsDecoder(unit) && Valid(unit, s) && limit <= |s|
    requires Boundary(unit, s, n) && n <= limit && forall i: nat :: n < i <= limit ==> !Boundary(unit, s, i)
    ensures Valid(unit, s[..n]) && n == CompletePrefixLen(unit, s[..limit])
  {
    ValidUpToBoundary(unit, s, n);
    PrefixEndsAtBoundary(unit, s, limit);
    if n < limit {
      CutIsLatest(unit, s, limit, n);
    } else {
      ValidInputDecodesToItself(unit, [], s[..limit]);
    }
  }

  // ----- Valid input -----

  lemma {:induction false} ValidInputDecodesToItself<T(!new)>(unit: Decoder<T>, replacement: seq<T>, s: seq<T>)
    requires IsDecoder(unit) && Valid(unit, s)
    ensures Lossy(unit, replacement, s) == s && CompletePrefixLen(unit, s) == |s|
    decreases |s|
  {
    if s != [] {
      ValidInputDecodesToItself(unit, replacement, s[unit(s).len..]);
      SplitAt(s, unit(s).len);
    }
  }

  lemma {:induction false} ValidConcat<T(!new)>(unit: Decoder<T>, s: seq<T>, t: seq<T>)
    requires IsDecoder(unit) && Valid(unit, s) && Valid(unit, t)
    ensures Valid(unit, s + t)
    decreases |s|
  {
    if s == [] {
      assert s + t == t;
    } else {
      var n := unit(s).len;
      ValidConcat(unit, s[n..], t);
      assert (s + t)[n..] == s[n..] + t;
    }
  }

  lemma OneCharacterIsValid<T(!new)>(unit: Decoder<T>, s: seq<T>)
    requires IsDecoder(unit) && s != [] && unit(s) == Char(|s|)
    ensures Valid(unit, s)
  {
    WholeSlices(s);
  }

  lemma {:induction false} ValidUpToBoundary<T(!new)>(unit: Decoder<T>, s: seq<T>, i: nat)
    requires IsDecoder(unit) && Valid(unit, s) && i <= |s| && Boundary(unit, s, i)
    ensures Valid(unit, s[..i])
    decreases |s|
  {
    if i != 0 {
      var n := unit(s).len;
      ValidUpToBoundary(unit, s[n..], i - n);
      FirstUnitOfPrefix(unit, s, n);
      OneCharacterIsValid(unit, s[..n]);
      TakeSplit(s, n, i);
      ValidConcat(unit, s[..n], s[n..][..i - n]);
    }
  }
}
