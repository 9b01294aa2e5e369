/** Pointer files: what every pointer satisfies, the round trip, the canonical form and its length. */
module LfsPointerProofs {
  import opened Wrappers
  import opened Seqs
  import opened Text
  import opened Decimals
  import opened LineText
  import opened LfsPointer

  // ----- The extension map -----

  lemma {:induction false} InsertContents(es: Entries, key: string, value: string)
    requires Sorted(es)
    ensures Sorted(Insert(es, key, value))
    ensures forall e :: e in Insert(es, key, value) <==> e == (key, value) || (e in es && e.0 != key)
  {
    if es == [] {
    } else if Less(key, es[0].0) {
      forall i | 0 <= i < |es| ensures Less(key, es[i].0) && es[i].0 != key {
        if 0 < i { LessTransitive(key, es[0].0, es[i].0); }
        LessTotal(key, es[i].0);
      }
    } else {
      LessTotal(key, es[0].0);
      var tail := es[1..];
      assert es == [es[0]] + tail;
      forall i | 0 <= i < |tail| ensures Less(es[0].0, tail[i].0) && tail[i].0 != es[0].0 {
        assert tail[i] == es[i + 1];
        LessTotal(es[0].0, tail[i].0);
      }
      if es[0].0 != key {
        InsertContents(tail, key, value);
        var rest := Insert(tail, key, value);
        forall i | 0 <= i < |rest| ensures Less(es[0].0, rest[i].0) {
          assert rest[i] in rest;
        }
      }
    }
  }

  /** A sorted entry list is determined by its entries. */
  lemma {:induction false} SortedIsCanonical(a: Entries, b: Entries)
    requires Sorted(a) && Sorted(b) && forall e :: e in a <==> e in b
    ensures a == b
  {
    SameElementsEmpty(a, b);
    if a != [] {
      assert a[0] in a && b[0] in b;
      var i :| 0 <= i < |b| && b[i] == a[0];
      var j :| 0 <= j < |a| && a[j] == b[0];
      LessTotal(a[0].0, b[0].0);
      assert a[0] == b[0];
      assert a == [a[0]] + a[1..] && b == [b[0]] + b[1..];
      forall e ensures e in a[1..] <==> e in b[1..] {
        assert e in a[1..] ==> e in a && e != a[0] by {
          if k :| 0 <= k < |a[1..]| && a[1..][k] == e {
            LessTotal(a[0].0, a[k + 1].0);
          }
        }
        assert e in b[1..] ==> e in b && e != b[0] by {
          if k :| 0 <= k < |b[1..]| && b[1..][k] == e {
            LessTotal(b[0].0, b[k + 1].0);
          }
        }
      }
      SortedIsCanonical(a[1..], b[1..]);
    }
  }

  // ----- Valid pointers -----

  ghost predicate ValidEntry(e: (string, string)) {
    ExtensionPriority(e.0).Some? && IsExtensionValue(e.1)
  }

  ghost predicate ValidEntries(es: Entries) {
    Sorted(es)
    && (forall e :: e in es ==> ValidEntry(e))
    && (forall d, e :: d in es && e in es && d != e ==> ExtensionPriority(d.0) != ExtensionPriority(e.0))
  }

  /** What `new`, `insert_extension` and `parse` establish. */
  ghost predicate Valid(p: Pointer) { ValidEntries(p.extensions) }

  lemma NewIsValid(obj: LfsObject)
    ensures Valid(NewPointer(obj))
  {
  }

  lemma InsertRecordKeepsValid(es: Entries, key: string, value: string)
    requires ValidEntries(es) && IsExtensionValue(value) && InsertRecord(es, key, value).Success?
    ensures ValidEntries(InsertRecord(es, key, value).value)
  {
    InsertContents(es, key, value);
    var after := InsertRecord(es, key, value).value;
    forall d, e | d in after && e in after && d != e
      ensures ExtensionPriority(d.0) != ExtensionPriority(e.0)
    {
      if d == (key, value) {
        var i :| 0 <= i < |es| && es[i] == e;
      } else if e == (key, value) {
        var i :| 0 <= i < |es| && es[i] == d;
      }
    }
  }

  lemma InsertExtensionKeepsValid(p: Pointer, key: string, value: string)
    requires Valid(p) && InsertExtension(p, key, value).Success?
    ensures Valid(InsertExtension(p, key, value).value)
  {
    NormalizingIsIdentity(key, value);
    InsertRecordKeepsValid(p.extensions, key, value);
  }

  lemma ParseLineKeepsValid(st: ParseState, line: string)
    requires ValidEntries(st.extensions) && ParseLine(st, line).Success?
    ensures ValidEntries(ParseLine(st, line).value.extensions)
  {
    var (key, value) := SplitOnce(line, ' ').value;
    if key != "oid" && key != "size" {
      NormalizingIsIdentity(key, value);
      InsertRecordKeepsValid(st.extensions, key, value);
    }
  }

  lemma {:induction false} ParseLinesKeepValid(lines: seq<string>)
    requires ParseLines(lines).Success?
    ensures ValidEntries(ParseLines(lines).value.extensions)
  {
    if lines != [] {
      var n := |lines| - 1;
      ParseLinesKeepValid(lines[..n]);
      ParseLineKeepsValid(ParseLines(lines[..n]).value, lines[n]);
    }
  }

  lemma ParseYieldsValid(contents: string)
    requires Parse(contents).Success?
    ensures Valid(Parse(contents).value)
  {
    if contents != "" {
      ParseLinesKeepValid(NonBlank(Lines(contents))[1..]);
    }
  }

  // ----- Insertion order -----

  function InsertAll(p: Pointer, records: seq<(string, string)>): Result<Pointer, ObjectError> {
    if records == [] then Success(p)
    else
      var n := |records| - 1;
      match InsertAll(p, records[..n])
      case Failure(e) => Failure(e)
      case Success(q) => InsertExtension(q, records[n].0, records[n].1)
  }

  ghost predicate DistinctPriorities(records: seq<(string, string)>) {
    (forall i :: 0 <= i < |records| ==> ValidEntry(records[i]))
    && forall i, j :: 0 <= i < j < |records| ==> ExtensionPriority(records[i].0) != ExtensionPriority(records[j].0)
  }

  lemma InsertDistinct(p: Pointer, e: (string, string))
    requires Valid(p) && ValidEntry(e)
    requires forall d :: d in p.extensions ==> ExtensionPriority(d.0) != ExtensionPriority(e.0)
    ensures var r := InsertExtension(p, e.0, e.1);
            r.Success? && r.value.obj == p.obj && Valid(r.value)
            && forall d :: d in r.value.extensions <==> d == e || d in p.extensions
  {
    NormalizingIsIdentity(e.0, e.1);
    InsertContents(p.extensions, e.0, e.1);
    assert forall i :: 0 <= i < |p.extensions| ==> p.extensions[i] in p.extensions;
    InsertExtensionKeepsValid(p, e.0, e.1);
  }

  lemma DistinctFromLast(records: seq<(string, string)>)
    requires DistinctPriorities(records) && records != []
    ensures var n := |records| - 1;
            DistinctPriorities(records[..n]) && ValidEntry(records[n])
            && forall d :: d in records[..n] ==> ExtensionPriority(d.0) != ExtensionPriority(records[n].0)
  {
    var n := |records| - 1;
    forall d | d in records[..n] ensures ExtensionPriority(d.0) != ExtensionPriority(records[n].0) {
      var j :| 0 <= j < n && records[..n][j] == d;
      assert records[j] == d;
    }
  }

  lemma {:induction false} InsertAllContents(obj: LfsObject, records: seq<(string, string)>)
    requires DistinctPriorities(records)
    ensures var r := InsertAll(NewPointer(obj), records);
            r.Success? && r.value.obj == obj && Valid(r.value)
            && forall e :: e in r.value.extensions <==> e in records
  {
    if records != [] {
      var n := |records| - 1;
      DistinctFromLast(records);
      InsertAllContents(obj, records[..n]);
      InsertDistinct(InsertAll(NewPointer(obj), records[..n]).value, records[n]);
      assert forall e :: e in records <==> e in records[..n] || e == records[n];
    }
  }

  /** Extensions with distinct priorities give one pointer and one rendering, whatever the order of insertion. */
  lemma InsertionOrderIsIrrelevant(obj: LfsObject, a: seq<(string, string)>, b: seq<(string, string)>)
    requires DistinctPriorities(a) && multiset(a) == multiset(b)
    ensures InsertAll(NewPointer(obj), a).Success? && InsertAll(NewPointer(obj), b) == InsertAll(NewPointer(obj), a)
    ensures Render(InsertAll(NewPointer(obj), b).value) == Render(InsertAll(NewPointer(obj), a).value)
  {
    PermutationKeepsPriorities(a, b);
    InsertAllContents(obj, a);
    InsertAllContents(obj, b);
    forall e ensures e in a <==> e in b {
      assert e in a <==> e in multiset(a);
      assert e in b <==> e in multiset(b);
    }
    SortedIsCanonical(InsertAll(NewPointer(obj), a).value.extensions, InsertAll(NewPointer(obj), b).value.extensions);
  }

  lemma PermutationKeepsPriorities(a: seq<(string, string)>, b: seq<(string, string)>)
    requires DistinctPriorities(a) && multiset(a) == multiset(b)
    ensures DistinctPriorities(b)
  {
    forall i | 0 <= i < |b| ensures ValidEntry(b[i]) {
      assert b[i] in multiset(b);
      assert b[i] in a;
    }
    forall i, j | 0 <= i < j < |b| ensures ExtensionPriority(b[i].0) != ExtensionPriority(b[j].0) {
      if b[i] == b[j] {
        OccursTwice(b, i, j);
        var k, l := TwoOccurrences(a, b[i]);
      } else {
        assert b[i] in multiset(b) && b[j] in multiset(b);
        var k :| 0 <= k < |a| && a[k] == b[i];
        var l :| 0 <= l < |a| && a[l] == b[j];
      }
    }
  }

  lemma OccursTwice<T>(s: seq<T>, i: nat, j: nat)
    requires i < j < |s| && s[i] == s[j]
    ensures multiset(s)[s[i]] >= 2
  {
    assert s == s[..j] + s[j..];
    assert s[i] in s[..j] && s[j] in s[j..] by {
      assert s[..j][i] == s[i] && s[j..][0] == s[j];
    }
  }

  lemma {:induction false} TwoOccurrences<T>(s: seq<T>, x: T) returns (i: nat, j: nat)
    requires multiset(s)[x] >= 2
    ensures i < j < |s| && s[i] == x && s[j] == x
  {
    assert s != [];
    var n := |s| - 1;
    assert s == s[..n] + [s[n]];
    if s[n] == x {
      assert x in multiset(s[..n]);
      i :| 0 <= i < n && s[..n][i] == x;
      j := n;
    } else {
      i, j := TwoOccurrences(s[..n], x);
    }
  }

  // ----- Lines of a printed pointer -----

  lemma FieldsAreExtensionsOidSize(p: Pointer)
    requires Valid(p)
    ensures Fields(p) == p.extensions + [("oid", PointerOid(p.obj.oid)), ("size", Decimal(p.obj.size))]
  {
    forall i | 0 <= i < |p.extensions| ensures Less(p.extensions[i].0, "oid") {
      assert p.extensions[i] in p.extensions;
      ExtensionKeyHasNoWhitespace(p.extensions[i].0);
    }
    InsertAtEnd(p.extensions, "oid", PointerOid(p.obj.oid));
    var es := p.extensions + [("oid", PointerOid(p.obj.oid))];
    assert Less("oid", "size");
    forall i | 0 <= i < |es| ensures Less(es[i].0, "size") {
      if i < |p.extensions| { LessTransitive(es[i].0, "oid", "size"); }
    }
    InsertAtEnd(es, "size", Decimal(p.obj.size));
  }

  lemma {:induction false} InsertAtEnd(es: Entries, key: string, value: string)
    requires forall i :: 0 <= i < |es| ==> Less(es[i].0, key)
    ensures Insert(es, key, value) == es + [(key, value)]
  {
    if es != [] {
      LessTotal(es[0].0, key);
      InsertAtEnd(es[1..], key, value);
      assert es == [es[0]] + es[1..];
    }
  }

  /** A line that the line splitter gives back unchanged and does not drop as blank. */
  predicate PlainLine(line: string) {
    line != "" && '\n' !in line && line[|line| - 1] != '\r' && !IsWhitespace(line[0])
  }

  /** The line feed after the last line is optional. */
  lemma LastLine(last: string)
    requires PlainLine(last)
    ensures Lines(last) == [last] && Lines(last + ['\n']) == [last]
  {
    FirstLine(last, "");
    assert last + ['\n'] + "" == last + ['\n'];
    assert IndexOf(last, '\n') == |last|;
  }

  lemma {:induction false} PlainLinesStay(lines: seq<string>)
    requires forall i :: 0 <= i < |lines| ==> PlainLine(lines[i])
    ensures NonBlank(lines) == lines
  {
    if lines != [] {
      PlainLinesStay(lines[1..]);
      assert lines == [lines[0]] + lines[1..];
    }
  }

  lemma LineIsPlain(key: string, value: string)
    requires key != "" && !HasAsciiWhitespace(key) && !IsWhitespace(key[0])
    requires value != "" && '\n' !in value && value[|value| - 1] != '\r'
    ensures PlainLine(Line((key, value)))
    ensures SplitOnce(Line((key, value)), ' ') == Some((key, value))
  {
    var line := Line((key, value));
    forall i | 0 <= i < |line| ensures line[i] != '\n' {
      if i < |key| {
        assert line[i] == key[i] && !IsAsciiWhitespace(key[i]);
      } else if |key| < i {
        assert line[i] == value[i - |key| - 1];
      }
    }
    forall i | 0 <= i < |key| ensures key[i] != ' ' {
      assert !IsAsciiWhitespace(key[i]);
    }
    SplitOnceAt(key, ' ', value);
  }

  lemma OidValueIsPlain(oid: Oid)
    ensures '\n' !in PointerOid(oid) && PointerOid(oid)[|PointerOid(oid)| - 1] != '\r'
    ensures IsAscii(PointerOid(oid)) && |PointerOid(oid)| == 71
  {
    var value := PointerOid(oid);
    forall i | 0 <= i < |value| ensures value[i] != '\n' && (value[i] as int) < 0x80 {
      if i < 7 {
        assert value[i] == SHA256_PREFIX[i];
      } else {
        assert value[i] == oid[i - 7] && IsLowerHex(oid[i - 7]);
      }
    }
    assert value[70] == oid[63] && IsLowerHex(oid[63]);
  }

  lemma OidValueParses(oid: Oid)
    ensures ParseOid(PointerOid(oid)) == Success(oid)
  {
    var value := PointerOid(oid);
    assert value[|SHA256_PREFIX|..] == oid && value[..|SHA256_PREFIX|] == SHA256_PREFIX;
    CanonicalReaderIsStrict(oid);
  }

  lemma ExtensionLine(e: (string, string))
    requires ValidEntry(e)
    ensures PlainLine(Line(e)) && SplitOnce(Line(e), ' ') == Some((e.0, e.1))
  {
    ExtensionKeyHasNoWhitespace(e.0);
    var hex := e.1[|SHA256_PREFIX|..];
    assert e.1 == PointerOid(hex);
    OidValueIsPlain(hex);
    LineIsPlain(e.0, e.1);
  }

  lemma OidLine(oid: Oid)
    ensures PlainLine(Line(("oid", PointerOid(oid)))) && SplitOnce(Line(("oid", PointerOid(oid))), ' ') == Some(("oid", PointerOid(oid)))
  {
    OidValueIsPlain(oid);
    LineIsPlain("oid", PointerOid(oid));
  }

  lemma SizeLine(n: U64)
    ensures PlainLine(Line(("size", Decimal(n)))) && SplitOnce(Line(("size", Decimal(n))), ' ') == Some(("size", Decimal(n)))
    ensures ParseU64(Decimal(n)) == Some(n)
  {
    var s := Decimal(n);
    assert forall i :: 0 <= i < |s| ==> IsDigit(s[i]);
    LineIsPlain("size", s);
  }

  // ----- Round trip -----

  /** The state after the first `n` extension lines. */
  function AfterExtensions(es: Entries, n: nat): ParseState
    requires n <= |es|
  {
    ParseState(if n == 0 then None else Some(es[n - 1].0), es[..n], None, None)
  }

  lemma ParseExtensionField(st: ParseState, e: (string, string), line: string, es: Entries)
    requires ValidEntry(e) && InsertRecord(st.extensions, e.0, e.1) == Success(es)
    ensures ParseField(st, e.0, e.1, line) == Success(st.(extensions := es))
  {
    NormalizingIsIdentity(e.0, e.1);
    ExtensionKeyHasNoWhitespace(e.0);
  }

  lemma InsertNextRecord(es: Entries, n: nat)
    requires ValidEntries(es) && n < |es|
    ensures InsertRecord(es[..n], es[n].0, es[n].1) == Success(es[..n + 1])
    ensures ValidEntry(es[n]) && forall i :: 0 <= i < n ==> Less(es[i].0, es[n].0)
  {
    assert es[n] in es;
    forall i | 0 <= i < n
      ensures Less(es[i].0, es[n].0) && ExtensionPriority(es[i].0) != ExtensionPriority(es[n].0)
    {
      assert es[i] in es;
      LessTotal(es[i].0, es[n].0);
    }
    InsertAtEnd(es[..n], es[n].0, es[n].1);
    assert es[..n + 1] == es[..n] + [es[n]];
  }

  lemma ParseExtensionLine(es: Entries, n: nat)
    requires ValidEntries(es) && n < |es|
    ensures ParseLine(AfterExtensions(es, n), Line(es[n])) == Success(AfterExtensions(es, n + 1))
  {
    InsertNextRecord(es, n);
    ExtensionLine(es[n]);
    ParseExtensionField(AfterExtensions(es, n).(previous := Some(es[n].0)), es[n], Line(es[n]), es[..n + 1]);
  }

  lemma {:induction false} ParseExtensionLines(es: Entries, n: nat)
    requires ValidEntries(es) && n <= |es|
    ensures ParseLines(FieldLines(es)[..n]) == Success(AfterExtensions(es, n))
  {
    if 0 < n {
      ParseExtensionLines(es, n - 1);
      FoldNext(ParseLine, START, FieldLines(es), n - 1);
      ParseExtensionLine(es, n - 1);
    }
  }

  lemma LastExtensionBelowOid(es: Entries)
    requires ValidEntries(es)
    ensures es != [] ==> Less(es[|es| - 1].0, "oid")
  {
    if es != [] {
      assert es[|es| - 1] in es;
      ExtensionKeyHasNoWhitespace(es[|es| - 1].0);
    }
  }

  lemma ParseOidLine(p: Pointer)
    requires Valid(p)
    ensures ParseLine(AfterExtensions(p.extensions, |p.extensions|), Line(("oid", PointerOid(p.obj.oid))))
         == Success(ParseState(Some("oid"), p.extensions, Some(p.obj.oid), None))
  {
    var es := p.extensions;
    OidLine(p.obj.oid);
    OidValueParses(p.obj.oid);
    LastExtensionBelowOid(es);
    assert es[..|es|] == es;
  }

  lemma ParseSizeLine(es: Entries, oid: Oid, size: U64)
    ensures ParseLine(ParseState(Some("oid"), es, Some(oid), None), Line(("size", Decimal(size))))
         == Success(ParseState(Some("size"), es, Some(oid), Some(size)))
  {
    SizeLine(size);
    assert Less("oid", "size");
  }

  lemma ParseTwoMore(lines: seq<string>, first: string, second: string, st: ParseState, middle: ParseState)
    requires ParseLines(lines) == Success(st) && ParseLine(st, first) == Success(middle)
    ensures ParseLines(lines + [first] + [second]) == ParseLine(middle, second)
  {
    FoldAppend(ParseLine, START, lines, first);
    FoldAppend(ParseLine, START, lines + [first], second);
  }

  function SizeLineOf(p: Pointer): string { Line(("size", Decimal(p.obj.size))) }

  /** The field lines of the pointer's text. */
  function FieldText(p: Pointer): seq<string> {
    FieldLines(p.extensions) + [Line(("oid", PointerOid(p.obj.oid)))] + [SizeLineOf(p)]
  }

  /** All lines but the last of the pointer's text under a version. */
  function TextLines(p: Pointer, version: string): seq<string> {
    ["version " + version] + FieldLines(p.extensions) + [Line(("oid", PointerOid(p.obj.oid)))]
  }

  /** A text of the pointer under any accepted version, with or without the final line feed. */
  function PointerText(p: Pointer, version: string, terminated: bool): string {
    Terminated(TextLines(p, version)) + if terminated then SizeLineOf(p) + ['\n'] else SizeLineOf(p)
  }

  lemma VersionIsPlain(version: string)
    requires version in VERSION_ALIASES
    ensures PlainLine("version " + version) && StripPrefix("version " + version, "version ") == Some(version)
  {
    assert ("version " + version)[8..] == version;
    var line := "version " + version;
    assert version == VERSION_ALIASES[0] || version == VERSION_ALIASES[1] || version == VERSION_ALIASES[2];
  }

  predicate PlainLines(lines: seq<string>) { forall i :: 0 <= i < |lines| ==> PlainLine(lines[i]) }

  lemma PlainConcat(a: seq<string>, b: seq<string>)
    requires PlainLines(a) && PlainLines(b)
    ensures PlainLines(a + b)
  {
  }

  lemma ExtensionLinesArePlain(p: Pointer)
    requires Valid(p)
    ensures PlainLines(FieldLines(p.extensions))
  {
    var es := p.extensions;
    forall i | 0 <= i < |es| ensures PlainLine(FieldLines(es)[i]) {
      assert es[i] in es;
      ExtensionLine(es[i]);
    }
  }

  lemma TextLinesArePlain(p: Pointer, version: string)
    requires Valid(p) && version in VERSION_ALIASES
    ensures PlainLines(TextLines(p, version))
  {
    VersionIsPlain(version);
    ExtensionLinesArePlain(p);
    OidLine(p.obj.oid);
    PlainConcat(["version " + version], FieldLines(p.extensions));
    PlainConcat(["version " + version] + FieldLines(p.extensions), [Line(("oid", PointerOid(p.obj.oid)))]);
  }

  lemma PlainTextSplits(lines: seq<string>, last: string, terminated: bool)
    requires PlainLine(last) && forall i :: 0 <= i < |lines| ==> PlainLine(lines[i])
    ensures NonBlank(Lines(Terminated(lines) + if terminated then last + ['\n'] else last)) == lines + [last]
  {
    LastLine(last);
    LinesOfTerminated(lines, if terminated then last + ['\n'] else last);
    PlainLinesStay(lines + [last]);
  }

  lemma TextSplits(p: Pointer, version: string, terminated: bool)
    requires Valid(p) && version in VERSION_ALIASES
    ensures NonBlank(Lines(PointerText(p, version, terminated))) == ["version " + version] + FieldText(p)
    ensures PointerText(p, version, terminated) != ""
  {
    TextLinesArePlain(p, version);
    SizeLine(p.obj.size);
    PlainTextSplits(TextLines(p, version), SizeLineOf(p), terminated);
    ConcatFour(["version " + version], FieldLines(p.extensions), [Line(("oid", PointerOid(p.obj.oid)))], [SizeLineOf(p)]);
  }

  lemma TextLinesParse(p: Pointer)
    requires Valid(p)
    ensures var st := ParseLines(FieldText(p));
            st.Success? && Finish(st.value) == Success(p)
  {
    var es := p.extensions;
    ParseExtensionLines(es, |es|);
    assert FieldLines(es)[..|es|] == FieldLines(es);
    ParseOidLine(p);
    ParseTwoMore(FieldLines(es), Line(("oid", PointerOid(p.obj.oid))), Line(("size", Decimal(p.obj.size))),
                 AfterExtensions(es, |es|), ParseState(Some("oid"), es, Some(p.obj.oid), None));
    ParseSizeLine(es, p.obj.oid, p.obj.size);
  }

  lemma VersionThenFields(contents: string, version: string, fields: seq<string>)
    requires contents != "" && ByteLen(contents) < SIZE_CUTOFF && version in VERSION_ALIASES
    requires NonBlank(Lines(contents)) == ["version " + version] + fields
    requires ParseLines(fields).Success?
    ensures Parse(contents) == Finish(ParseLines(fields).value)
  {
    VersionIsPlain(version);
    assert (["version " + version] + fields)[1..] == fields;
  }

  lemma TextParses(p: Pointer, version: string, terminated: bool)
    requires Valid(p) && version in VERSION_ALIASES
    requires ByteLen(PointerText(p, version, terminated)) < SIZE_CUTOFF
    ensures Parse(PointerText(p, version, terminated)) == Success(p)
  {
    TextSplits(p, version, terminated);
    TextLinesParse(p);
    VersionThenFields(PointerText(p, version, terminated), version, FieldText(p));
  }

  lemma RenderIsText(p: Pointer)
    requires Valid(p) && p.obj.size != 0
    ensures Render(p) == PointerText(p, POINTER_VERSION, true)
  {
    FieldsAreExtensionsOidSize(p);
    var last := SizeLineOf(p);
    assert ["version " + POINTER_VERSION] + FieldLines(Fields(p)) == TextLines(p, POINTER_VERSION) + [last];
    TerminatedAppend(TextLines(p, POINTER_VERSION), last);
  }

  /** Printing and parsing give a pointer back exactly when it is the canonical empty object, or it is not
      empty and its rendering stays below the cutoff. */
  lemma PointerRoundTrip(p: Pointer)
    requires Valid(p)
    ensures Parse(Render(p)) == Success(p)
        <==> p == EMPTY_POINTER || (p.obj.size != 0 && ByteLen(Render(p)) < SIZE_CUTOFF)
    ensures p.obj.size == 0 ==> Parse(Render(p)) == Success(EMPTY_POINTER)
  {
    if p.obj.size != 0 {
      RenderIsText(p);
      if ByteLen(Render(p)) < SIZE_CUTOFF {
        TextParses(p, POINTER_VERSION, true);
      }
    }
  }

  /** Every pointer that is built by inserting extensions into a new one is valid. */
  lemma {:induction false} BuiltIsValid(obj: LfsObject, records: seq<(string, string)>)
    requires InsertAll(NewPointer(obj), records).Success?
    ensures Valid(InsertAll(NewPointer(obj), records).value)
  {
    if records == [] {
      NewIsValid(obj);
    } else {
      var n := |records| - 1;
      BuiltIsValid(obj, records[..n]);
      InsertExtensionKeepsValid(InsertAll(NewPointer(obj), records[..n]).value, records[n].0, records[n].1);
    }
  }

  /** The round trip for every pointer that `new` and any successful insertions build, and for every parsed one. */
  lemma BuiltAndParsedRoundTrip(obj: LfsObject, records: seq<(string, string)>, contents: string)
    ensures var built := InsertAll(NewPointer(obj), records);
            built.Success? ==>
              (Parse(Render(built.value)) == built
               <==> built.value == EMPTY_POINTER || (obj.size != 0 && ByteLen(Render(built.value)) < SIZE_CUTOFF))
    ensures Parse(contents).Success? ==>
              (Parse(Render(Parse(contents).value)) == Parse(contents)
               <==> Parse(contents).value == EMPTY_POINTER
                    || (Parse(contents).value.obj.size != 0 && ByteLen(Render(Parse(contents).value)) < SIZE_CUTOFF))
  {
    if InsertAll(NewPointer(obj), records).Success? {
      BuiltIsValid(obj, records);
      BuiltObject(obj, records);
      PointerRoundTrip(InsertAll(NewPointer(obj), records).value);
    }
    if Parse(contents).Success? {
      ParseYieldsValid(contents);
      PointerRoundTrip(Parse(contents).value);
    }
  }

  lemma {:induction false} BuiltObject(obj: LfsObject, records: seq<(string, string)>)
    requires InsertAll(NewPointer(obj), records).Success?
    ensures InsertAll(NewPointer(obj), records).value.obj == obj
  {
    if records != [] {
      BuiltObject(obj, records[..|records| - 1]);
    }
  }
}
