/** Text primitives shared by the parsers: characters are Unicode scalar values, and
    every length limit of the program counts UTF-8 bytes. */
module Text {
  import opened Wrappers

  /** Number of bytes that UTF-8 uses for one scalar value (section 3 of RFC 3629). */
  function CharLen(c: char): (n: nat)
    ensures 1 <= n <= 4
  {
    if c as int < 0x80 then 1
    else if c as int < 0x800 then 2
    else if c as int < 0x1_0000 then 3
    else 4
  }

  /** Number of UTF-8 bytes of a string. */
  function ByteLen(s: string): (n: nat)
    ensures |s| <= n
  {
    if s == "" then 0 else CharLen(s[0]) + ByteLen(s[1..])
  }

  lemma {:induction false} ByteLenConcat(a: string, b: string)
    ensures ByteLen(a + b) == ByteLen(a) + ByteLen(b)
  {
    if a == "" {
      assert a + b == b;
    } else {
      assert (a + b)[1..] == a[1..] + b;
      ByteLenConcat(a[1..], b);
    }
  }

  predicate IsAscii(s: string) {
    forall i :: 0 <= i < |s| ==> s[i] as int < 0x80
  }

  lemma {:induction false} ByteLenAscii(s: string)
    requires IsAscii(s)
    ensures ByteLen(s) == |s|
  {
    if s != "" {
      ByteLenAscii(s[1..]);
    }
  }

  /** The White_Space property of the Unicode Character Database. */
  predicate IsWhitespace(c: char) {
    var n := c as int;
    0x09 <= n <= 0x0D || n == 0x20 || n == 0x85 || n == 0xA0 || n == 0x1680
    || 0x2000 <= n <= 0x200A || n == 0x2028 || n == 0x2029 || n == 0x202F || n == 0x205F || n == 0x3000
  }

  /** General category Cc. */
  predicate IsControl(c: char) {
    c as int < 0x20 || 0x7F <= c as int < 0xA0
  }

  function TrimStart(s: string): (r: string)
    ensures |r| <= |s|
    ensures r == s[|s| - |r|..]
    ensures forall i :: 0 <= i < |s| - |r| ==> IsWhitespace(s[i])
    ensures r != "" ==> !IsWhitespace(r[0])
  {
    if s != "" && IsWhitespace(s[0]) then TrimStart(s[1..]) else s
  }

  function TrimEnd(s: string): (r: string)
    ensures |r| <= |s|
    ensures r == s[..|r|]
    ensures forall i :: |r| <= i < |s| ==> IsWhitespace(s[i])
    ensures r != "" ==> !IsWhitespace(r[|r| - 1])
  {
    if s != "" && IsWhitespace(s[|s| - 1]) then TrimEnd(s[..|s| - 1]) else s
  }

  /** Removes leading and trailing white space. */
  function Trim(s: string): (r: string)
    ensures |r| <= |s|
    ensures r != "" ==> !IsWhitespace(r[0]) && !IsWhitespace(r[|r| - 1])
    ensures r == "" <==> forall i :: 0 <= i < |s| ==> IsWhitespace(s[i])
    ensures |r| == |s| ==> r == s
  {
    TrimEnd(TrimStart(s))
  }

  lemma TrimIsIdentity(s: string)
    requires s != "" ==> !IsWhitespace(s[0]) && !IsWhitespace(s[|s| - 1])
    ensures Trim(s) == s
  {
  }

  predicate AllWhitespace(s: string) { forall i :: 0 <= i < |s| ==> IsWhitespace(s[i]) }

  /** The text without the white space around it. */
  ghost predicate IsTrimmed(s: string, r: string) {
    r != "" && !IsWhitespace(r[0]) && !IsWhitespace(r[|r| - 1])
    && exists before, after :: AllWhitespace(before) && AllWhitespace(after) && s == before + r + after
  }

  lemma StartSplits(s: string) returns (before: string)
    ensures AllWhitespace(before) && s == before + TrimStart(s)
  {
    var n := |s| - |TrimStart(s)|;
    before := s[..n];
    assert s == before + s[n..];
  }

  lemma EndSplits(s: string) returns (after: string)
    ensures AllWhitespace(after) && s == TrimEnd(s) + after
  {
    after := s[|TrimEnd(s)|..];
  }

  lemma TrimIsExact(s: string)
    ensures Trim(s) == "" <==> AllWhitespace(s)
    ensures Trim(s) != "" ==> IsTrimmed(s, Trim(s))
  {
    var before := StartSplits(s);
    var after := EndSplits(TrimStart(s));
    assert s == before + Trim(s) + after;
  }

  predicate StartsWith(s: string, prefix: string) {
    |prefix| <= |s| && s[..|prefix|] == prefix
  }

  function StripPrefix(s: string, prefix: string): Option<string> {
    if StartsWith(s, prefix) then Some(s[|prefix|..]) else None
  }

  predicate EndsWith(s: string, suffix: string) {
    |suffix| <= |s| && s[|s| - |suffix|..] == suffix
  }

  /** Index of the first occurrence of `c`, or the length of the string. */
  function IndexOf(s: string, c: char): (i: nat)
    ensures i <= |s|
    ensures c !in s[..i]
    ensures i < |s| ==> s[i] == c
  {
    if s == "" || s[0] == c then 0
    else
      var i := IndexOf(s[1..], c) + 1;
      assert s[..i] == [s[0]] + s[1..][..i - 1];
      i
  }

  /** `str::split_once`: the text before and after the first occurrence of `c`. */
  function SplitOnce(s: string, c: char): (r: Option<(string, string)>)
    ensures r.Some? ==> c !in r.value.0 && s == r.value.0 + [c] + r.value.1
    ensures r.None? <==> c !in s
  {
    var i := IndexOf(s, c);
    if i < |s| then Some((s[..i], s[i + 1..]))
    else
      assert s[..i] == s;
      None
  }

  /** The first separator decides the split. */
  lemma SplitOnceAt(key: string, c: char, value: string)
    requires c !in key
    ensures SplitOnce(key + [c] + value, c) == Some((key, value))
  {
    var s := key + [c] + value;
    var i := IndexOf(s, c);
    assert forall j :: 0 <= j < |key| ==> s[j] == key[j];
    assert s[|key|] == c;
    assert forall j :: 0 <= j < i ==> s[j] == s[..i][j];
    assert i == |key|;
    assert s[..|key|] == key && s[|key| + 1..] == value;
  }

  function ToLower(c: char): char {
    if 'A' <= c <= 'Z' then c + ('a' - 'A') else c
  }

  /** `to_ascii_lowercase`. */
  function Lowercase(s: string): string {
    if s == "" then "" else [ToLower(s[0])] + Lowercase(s[1..])
  }

  lemma {:induction false} LowercaseAt(s: string)
    ensures |Lowercase(s)| == |s| && forall i :: 0 <= i < |s| ==> Lowercase(s)[i] == ToLower(s[i])
  {
    if s != "" {
      LowercaseAt(s[1..]);
    }
  }

  predicate IsAsciiAlphanumeric(c: char) {
    '0' <= c <= '9' || 'a' <= c <= 'z' || 'A' <= c <= 'Z'
  }

  /** Where the first occurrence of `part` begins. */
  function Find(s: string, part: string): (r: Option<nat>)
    requires part != ""
    ensures r.Some? ==> r.value + |part| <= |s| && s[r.value..r.value + |part|] == part
  {
    if |s| < |part| then None
    else if s[..|part|] == part then Some(0)
    else
      match Find(s[1..], part)
      case None => None
      case Some(i) => Some(i + 1)
  }

  lemma FoundPart(s: string, part: string)
    requires |part| >= 2 && Find(s, part).Some?
    ensures var i := Find(s, part).value; i + |part| <= |s| && s[i] == part[0] && s[i + 1] == part[1]
  {
    var i := Find(s, part).value;
    assert s[i..i + |part|][0] == s[i] && s[i..i + |part|][1] == s[i + 1];
  }

  /** Nothing before the part holds its first character, so the first occurrence is there. */
  lemma {:induction false} FindAfter(before: string, part: string, rest: string)
    requires part != "" && part[0] !in before
    ensures Find(before + part + rest, part) == Some(|before|)
  {
    var s := before + part + rest;
    if before == "" {
      assert s[..|part|] == part;
    } else {
      assert s[1..] == before[1..] + part + rest;
      assert s[..|part|][0] == before[0];
      FindAfter(before[1..], part, rest);
    }
  }

  /** Strict byte-wise order of two strings, which for UTF-8 is scalar-value order. */
  predicate Less(a: string, b: string) {
    if b == "" then false
    else if a == "" then true
    else a[0] < b[0] || (a[0] == b[0] && Less(a[1..], b[1..]))
  }

  lemma {:induction false} LessTransitive(a: string, b: string, c: string)
    requires Less(a, b) && Less(b, c)
    ensures Less(a, c)
  {
    if a != "" && a[0] == b[0] && b[0] == c[0] {
      LessTransitive(a[1..], b[1..], c[1..]);
    }
  }

  lemma {:induction false} LessTotal(a: string, b: string)
    ensures (Less(a, b) && !Less(b, a) && a != b)
         || (Less(b, a) && !Less(a, b) && a != b)
         || (a == b && !Less(a, b))
  {
    if a != "" && b != "" && a[0] == b[0] {
      LessTotal(a[1..], b[1..]);
      assert a == [a[0]] + a[1..] && b == [b[0]] + b[1..];
    }
  }

  // ----- Folding over lines -----

  /** Runs a step over the lines in order; the first line that fails decides the error. */
  function Fold<S, E>(step: (S, string) -> Result<S, E>, start: S, lines: seq<string>): Result<S, E> {
    if lines == [] then Success(start)
    else
      match Fold(step, start, lines[..|lines| - 1])
      case Failure(e) => Failure(e)
      case Success(s) => step(s, lines[|lines| - 1])
  }

  lemma FoldAppend<S, E>(step: (S, string) -> Result<S, E>, start: S, lines: seq<string>, last: string)
    requires Fold(step, start, lines).Success?
    ensures Fold(step, start, lines + [last]) == step(Fold(step, start, lines).value, last)
  {
    assert (lines + [last])[..|lines|] == lines;
  }

  lemma {:induction false} FirstFailureDecides<S, E>(step: (S, string) -> Result<S, E>, start: S, lines: seq<string>, i: nat)
    requires i <= |lines| && Fold(step, start, lines[..i]).Failure?
    ensures Fold(step, start, lines) == Fold(step, start, lines[..i])
  {
    if i < |lines| {
      assert lines[..|lines| - 1][..i] == lines[..i];
      FirstFailureDecides(step, start, lines[..|lines| - 1], i);
    } else {
      assert lines[..i] == lines;
    }
  }

  lemma FoldNext<S, E>(step: (S, string) -> Result<S, E>, start: S, lines: seq<string>, i: nat)
    requires i < |lines| && Fold(step, start, lines[..i]).Success?
    ensures Fold(step, start, lines[..i + 1]) == step(Fold(step, start, lines[..i]).value, lines[i])
    ensures Fold(step, start, lines[..i + 1]).Failure? ==> Fold(step, start, lines) == Fold(step, start, lines[..i + 1])
  {
    assert lines[..i + 1] == lines[..i] + [lines[i]];
    FoldAppend(step, start, lines[..i], lines[i]);
    if Fold(step, start, lines[..i + 1]).Failure? {
      FirstFailureDecides(step, start, lines, i + 1);
    }
  }

  /** What holds of the start, and after each step of the lines so far, holds at the end. */
  lemma {:induction false} FoldRelates<S(!new), E>(
    step: (S, string) -> Result<S, E>, start: S, lines: seq<string>, rel: (S, seq<string>) -> bool)
    requires Fold(step, start, lines).Success? && rel(start, [])
    requires forall s, before, line :: rel(s, before) && step(s, line).Success? ==> rel(step(s, line).value, before + [line])
    ensures rel(Fold(step, start, lines).value, lines)
  {
    if lines != [] {
      var init, last := lines[..|lines| - 1], lines[|lines| - 1];
      FoldRelates(step, start, init, rel);
      assert lines == init + [last];
    }
  }

  /** A measure that no step raises by more than its line costs ends below the total cost. */
  lemma {:induction false} FoldGrowth<S(!new), E>(
    step: (S, string) -> Result<S, E>, start: S, lines: seq<string>, size: S -> nat, cost: seq<string> -> nat)
    requires Fold(step, start, lines).Success?
    requires forall s, line :: step(s, line).Success? ==> size(step(s, line).value) <= size(s) + cost([line])
    requires forall a, line :: cost(a + [line]) == cost(a) + cost([line])
    ensures size(Fold(step, start, lines).value) + cost([]) <= size(start) + cost(lines)
  {
    if lines != [] {
      var init, last := lines[..|lines| - 1], lines[|lines| - 1];
      FoldGrowth(step, start, init, size, cost);
      assert lines == init + [last];
    }
  }
}
