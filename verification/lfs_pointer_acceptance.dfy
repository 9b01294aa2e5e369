/** Which texts are pointer files, stated over their lines, and what is answered for lines out of order. */
module LfsPointerAcceptance {
  import opened Wrappers
  import opened Text
  import opened Decimals
  import opened LineText
  import opened LfsPointer
  import opened LfsPointerProofs

  // ----- What an accepted text looks like -----

  /** Decimal digits of `n`, perhaps with leading zeros and a plus sign. */
  predicate Spells(digits: string, n: nat) {
    (digits != "" && AllDigits(digits) && DigitsValue(digits) == n)
    || (|digits| > 1 && digits[0] == '+' && AllDigits(digits[1..]) && DigitsValue(digits[1..]) == n)
  }

  /** A version line, the extension lines in key order, the identifier and the size, with one space after each key. */
  ghost predicate IsPointerText(lines: seq<string>, p: Pointer) {
    var n := |p.extensions|;
    |lines| == n + 3
    && (exists version :: version in VERSION_ALIASES && lines[0] == "version " + version)
    && (forall i :: 0 <= i < n ==> lines[i + 1] == p.extensions[i].0 + " " + p.extensions[i].1)
    && lines[n + 1] == "oid sha256:" + p.obj.oid
    && exists digits :: Spells(digits, p.obj.size) && lines[n + 2] == "size " + digits
  }

  /** The texts that are read as this pointer, and no others. */
  lemma PointerTextsAreExact(contents: string, p: Pointer)
    ensures Parse(contents) == Success(p)
        <==> if contents == "" then p == EMPTY_POINTER
             else ByteLen(contents) < 1024 && Valid(p) && IsPointerText(NonBlank(Lines(contents)), p)
  {
    var lines := NonBlank(Lines(contents));
    if contents != "" && ByteLen(contents) < 1024 {
      if Parse(contents) == Success(p) {
        ParseYieldsValid(contents);
        AcceptedIsPointerText(lines, p);
      }
      if Valid(p) && IsPointerText(lines, p) {
        PointerTextIsAccepted(lines, p);
      }
    }
  }

  lemma SizesAreSpelled(digits: string, n: U64)
    ensures ParseU64(digits) == Some(n) <==> Spells(digits, n)
  {
    if digits != "" && digits[0] == '+' { assert !IsDigit(digits[0]); }
  }

  // ----- Accepted lines have this form -----

  function OidLines(oid: Option<Oid>): seq<string> {
    match oid case None => [] case Some(o) => ["oid sha256:" + o]
  }

  function SizeLines(size: Option<U64>, digits: string): seq<string> {
    match size case None => [] case Some(_) => ["size " + digits]
  }

  function LastKey(st: ParseState): Option<string> {
    if st.size.Some? then Some("size")
    else if st.oid.Some? then Some("oid")
    else if st.extensions == [] then None
    else Some(st.extensions[|st.extensions| - 1].0)
  }

  /** These lines hold what the state has read, in key order. */
  ghost predicate ReadFrom(st: ParseState, lines: seq<string>, digits: string) {
    ValidEntries(st.extensions) && st.previous == LastKey(st)
    && lines == FieldLines(st.extensions) + OidLines(st.oid) + SizeLines(st.size, digits)
    && (st.size.Some? ==> Spells(digits, st.size.value))
  }

  /** The line has a key, and it is above the previous one. */
  predicate Follows(st: ParseState, line: string) {
    SplitOnce(line, ' ').Some? && (st.previous.Some? ==> Less(st.previous.value, SplitOnce(line, ' ').value.0))
  }

  lemma SizeIsRead(st: ParseState, line: string, value: string)
    requires st.previous == LastKey(st) && Follows(st, line) && SplitOnce(line, ' ') == Some(("size", value))
    requires ParseLine(st, line).Success?
    ensures st.size.None? && ParseU64(value).Some?
    ensures ParseLine(st, line).value == st.(previous := Some("size"), size := ParseU64(value))
    ensures Spells(value, ParseU64(value).value) && line == "size " + value
  {
    LessTotal("size", "size");
    SizesAreSpelled(value, ParseU64(value).value);
  }

  lemma SizeIsLast(st: ParseState, lines: seq<string>, digits: string, line: string, value: string)
    requires ReadFrom(st, lines, digits) && Follows(st, line) && SplitOnce(line, ' ') == Some(("size", value))
    requires ParseLine(st, line).Success?
    ensures ReadFrom(ParseLine(st, line).value, lines + [line], value)
  {
    SizeIsRead(st, line, value);
    SizeIsAppended(st, lines, digits, value, ParseU64(value).value);
  }

  lemma SizeIsAppended(st: ParseState, lines: seq<string>, digits: string, value: string, size: U64)
    requires ReadFrom(st, lines, digits) && st.size.None? && Spells(value, size)
    ensures ReadFrom(st.(previous := Some("size"), size := Some(size)), lines + ["size " + value], value)
  {
    assert FieldLines(st.extensions) + OidLines(st.oid) + [] == FieldLines(st.extensions) + OidLines(st.oid);
  }

  lemma NothingBehindOid(st: ParseState)
    requires st.previous == LastKey(st) && (st.previous.Some? ==> Less(st.previous.value, "oid"))
    ensures st.size.None? && st.oid.None?
  {
    LessTotal("oid", "oid");
    assert !Less("size", "oid");
  }

  lemma OidIsNext(st: ParseState, lines: seq<string>, digits: string, line: string, value: string)
    requires ReadFrom(st, lines, digits) && Follows(st, line) && SplitOnce(line, ' ') == Some(("oid", value))
    requires ParseLine(st, line).Success?
    ensures ReadFrom(ParseLine(st, line).value, lines + [line], "")
  {
    NothingBehindOid(st);
    var oid := ReadOid(line, value);
    assert FieldLines(st.extensions) + [] + [] == FieldLines(st.extensions);
  }

  lemma ReadOid(line: string, value: string) returns (oid: Oid)
    requires ParseOid(value).Success? && line == "oid" + [' '] + value
    ensures ParseOid(value) == Success(oid) && line == "oid sha256:" + oid
  {
    oid := value[|SHA256_PREFIX|..];
    assert value == SHA256_PREFIX + oid;
  }

  lemma ExtensionsAreFirst(st: ParseState, key: string)
    requires st.previous == LastKey(st) && ExtensionPriority(key).Some?
    requires st.previous.Some? ==> Less(st.previous.value, key)
    ensures st.size.None? && st.oid.None? && key != "oid" && key != "size"
  {
    ExtensionKeyHasNoWhitespace(key);
  }

  lemma LastIsGreatest(es: Entries, key: string)
    requires Sorted(es) && (es != [] ==> Less(es[|es| - 1].0, key))
    ensures forall i :: 0 <= i < |es| ==> Less(es[i].0, key)
  {
    forall i | 0 <= i < |es| ensures Less(es[i].0, key) {
      if i < |es| - 1 { LessTransitive(es[i].0, es[|es| - 1].0, key); }
    }
  }

  lemma OneMoreFieldLine(es: Entries, e: (string, string))
    ensures FieldLines(es + [e]) == FieldLines(es) + [Line(e)]
  {
  }

  lemma ExtensionIsAppended(st: ParseState, line: string, key: string, value: string)
    requires ValidEntries(st.extensions) && st.previous == LastKey(st) && Follows(st, line)
    requires SplitOnce(line, ' ') == Some((key, value)) && ExtensionPriority(key).Some? && ParseLine(st, line).Success?
    ensures ParseLine(st, line).value == ParseState(Some(key), st.extensions + [(key, value)], None, None)
  {
    ExtensionsAreFirst(st, key);
    NormalizingIsIdentity(key, value);
    LastIsGreatest(st.extensions, key);
    InsertAtEnd(st.extensions, key, value);
  }

  lemma ExtensionIsNext(st: ParseState, lines: seq<string>, digits: string, line: string, key: string, value: string)
    requires ReadFrom(st, lines, digits) && Follows(st, line) && SplitOnce(line, ' ') == Some((key, value))
    requires ExtensionPriority(key).Some? && ParseLine(st, line).Success?
    ensures ReadFrom(ParseLine(st, line).value, lines + [line], "")
  {
    ExtensionsAreFirst(st, key);
    ExtensionIsAppended(st, line, key, value);
    ParseLineKeepsValid(st, line);
    ExtensionsRead(st.extensions, lines, key, value);
  }

  lemma ExtensionsRead(es: Entries, lines: seq<string>, key: string, value: string)
    requires lines == FieldLines(es) + [] + [] && ValidEntries(es + [(key, value)])
    ensures ReadFrom(ParseState(Some(key), es + [(key, value)], None, None), lines + [key + [' '] + value], "")
  {
    OneMoreFieldLine(es, (key, value));
    assert FieldLines(es) + [] + [] == FieldLines(es);
  }

  lemma AcceptedFollows(st: ParseState, line: string)
    requires ParseLine(st, line).Success?
    ensures Follows(st, line)
    ensures var key := SplitOnce(line, ' ').value.0; key == "oid" || key == "size" || ExtensionPriority(key).Some?
  {
  }

  lemma AcceptedLine(st: ParseState, lines: seq<string>, earlier: string, line: string) returns (digits: string)
    requires ReadFrom(st, lines, earlier) && ParseLine(st, line).Success?
    ensures ReadFrom(ParseLine(st, line).value, lines + [line], digits)
  {
    AcceptedFollows(st, line);
    var (key, value) := SplitOnce(line, ' ').value;
    digits := if key == "size" then value else "";
    if key == "size" {
      SizeIsLast(st, lines, earlier, line, value);
    } else if key == "oid" {
      OidIsNext(st, lines, earlier, line, value);
    } else {
      ExtensionIsNext(st, lines, earlier, line, key, value);
    }
  }

  lemma StartReads()
    ensures ReadFrom(START, [], "")
  {
  }

  ghost predicate IsRead(st: ParseState, lines: seq<string>) { exists digits :: ReadFrom(st, lines, digits) }

  lemma NextIsRead(st: ParseState, lines: seq<string>, line: string)
    requires IsRead(st, lines) && ParseLine(st, line).Success?
    ensures IsRead(ParseLine(st, line).value, lines + [line])
  {
    var earlier :| ReadFrom(st, lines, earlier);
    var digits := AcceptedLine(st, lines, earlier, line);
  }

  lemma AcceptedLines(lines: seq<string>)
    requires ParseLines(lines).Success?
    ensures IsRead(ParseLines(lines).value, lines)
  {
    StartReads();
    forall st, before, line | IsRead(st, before) && ParseLine(st, line).Success?
      ensures IsRead(ParseLine(st, line).value, before + [line])
    {
      NextIsRead(st, before, line);
    }
    FoldRelates(ParseLine, START, lines, IsRead);
  }

  lemma AcceptedIsPointerText(lines: seq<string>, p: Pointer)
    requires ParseVersionAndFields(lines) == Success(p)
    ensures IsPointerText(lines, p)
  {
    var st := AcceptedVersion(lines, p);
    AcceptedLines(lines[1..]);
    var digits :| ReadFrom(st, lines[1..], digits);
    FieldsOfText(lines, p, digits);
  }

  lemma AcceptedVersion(lines: seq<string>, p: Pointer) returns (st: ParseState)
    requires ParseVersionAndFields(lines) == Success(p)
    ensures lines != [] && exists version :: version in VERSION_ALIASES && lines[0] == "version " + version
    ensures ParseLines(lines[1..]) == Success(st) && Finish(st) == Success(p)
  {
    var version := StripPrefix(lines[0], "version ").value;
    assert lines[0] == "version " + version;
    st := ParseLines(lines[1..]).value;
  }

  lemma FieldsOfText(lines: seq<string>, p: Pointer, digits: string)
    requires lines != [] && lines[1..] == FieldLines(p.extensions) + ["oid sha256:" + p.obj.oid] + ["size " + digits]
    requires Spells(digits, p.obj.size) && exists version :: version in VERSION_ALIASES && lines[0] == "version " + version
    ensures IsPointerText(lines, p)
  {
    var n := |p.extensions|;
    assert |lines[1..]| == n + 2;
    forall i | 0 <= i < n ensures lines[i + 1] == p.extensions[i].0 + " " + p.extensions[i].1 {
      assert lines[i + 1] == lines[1..][i];
    }
    assert lines[n + 1] == lines[1..][n] && lines[n + 2] == lines[1..][n + 1];
  }

  // ----- Lines of this form are accepted -----

  lemma PointerTextIsAccepted(lines: seq<string>, p: Pointer)
    requires Valid(p) && IsPointerText(lines, p)
    ensures ParseVersionAndFields(lines) == Success(p)
  {
    var n := |p.extensions|;
    var version :| version in VERSION_ALIASES && lines[0] == "version " + version;
    var digits :| Spells(digits, p.obj.size) && lines[n + 2] == "size " + digits;
    VersionIsPlain(version);
    TextOfFields(lines, p, digits);
    FieldsParse(p, digits);
  }

  lemma TextOfFields(lines: seq<string>, p: Pointer, digits: string)
    requires IsPointerText(lines, p) && lines[|p.extensions| + 2] == "size " + digits
    ensures lines[1..] == FieldLines(p.extensions) + [Line(("oid", PointerOid(p.obj.oid)))] + [Line(("size", digits))]
  {
    assert Line(("oid", PointerOid(p.obj.oid))) == "oid sha256:" + p.obj.oid;
    assert Line(("size", digits)) == "size " + digits;
  }

  lemma SpelledSizeParses(es: Entries, oid: Oid, size: U64, digits: string)
    requires Spells(digits, size)
    ensures ParseLine(ParseState(Some("oid"), es, Some(oid), None), Line(("size", digits)))
         == Success(ParseState(Some("size"), es, Some(oid), Some(size)))
  {
    SizesAreSpelled(digits, size);
    SplitOnceAt("size", ' ', digits);
    assert Less("oid", "size");
  }

  lemma FieldsParse(p: Pointer, digits: string)
    requires Valid(p) && Spells(digits, p.obj.size)
    ensures var st := ParseLines(FieldLines(p.extensions) + [Line(("oid", PointerOid(p.obj.oid)))] + [Line(("size", digits))]);
            st.Success? && Finish(st.value) == Success(p)
  {
    var es := p.extensions;
    ParseExtensionLines(es, |es|);
    assert FieldLines(es)[..|es|] == FieldLines(es);
    ParseOidLine(p);
    ParseTwoMore(FieldLines(es), Line(("oid", PointerOid(p.obj.oid))), Line(("size", digits)),
                 AfterExtensions(es, |es|), ParseState(Some("oid"), es, Some(p.obj.oid), None));
    SpelledSizeParses(es, p.obj.oid, p.obj.size, digits);
  }

  // ----- Lines out of order -----

  /** The text before the first space. */
  function KeyOf(line: string): string { line[..IndexOf(line, ' ')] }

  /** The keys of an accepted text increase strictly. */
  lemma AcceptedKeysIncrease(contents: string)
    requires Parse(contents).Success? && contents != ""
    ensures var lines := NonBlank(Lines(contents));
            forall i, j :: 1 <= i < j < |lines| ==> Less(KeyOf(lines[i]), KeyOf(lines[j]))
  {
    var lines, p := NonBlank(Lines(contents)), Parse(contents).value;
    PointerTextsAreExact(contents, p);
    var keys := KeysOf(p);
    KeysIncrease(p);
    forall i | 1 <= i < |lines| ensures KeyOf(lines[i]) == keys[i - 1] {
      KeyOfLine(lines, p, i - 1);
    }
  }

  function KeysOf(p: Pointer): seq<string> {
    seq(|p.extensions|, i requires 0 <= i < |p.extensions| => p.extensions[i].0) + ["oid", "size"]
  }

  lemma KeysIncrease(p: Pointer)
    requires Valid(p)
    ensures forall i, j :: 0 <= i < j < |KeysOf(p)| ==> Less(KeysOf(p)[i], KeysOf(p)[j])
  {
    var keys, n := KeysOf(p), |p.extensions|;
    assert Less("oid", "size");
    forall i, j | 0 <= i < j < |keys| ensures Less(keys[i], keys[j]) {
      if i < n <= j {
        assert p.extensions[i] in p.extensions;
        ExtensionKeyHasNoWhitespace(keys[i]);
      }
    }
  }

  lemma KeyOfPrefix(key: string, value: string)
    requires ' ' !in key
    ensures KeyOf(key + " " + value) == key
  {
    SplitOnceAt(key, ' ', value);
  }

  lemma KeyOfLine(lines: seq<string>, p: Pointer, i: nat)
    requires Valid(p) && IsPointerText(lines, p) && i < |p.extensions| + 2
    ensures KeyOf(lines[i + 1]) == KeysOf(p)[i]
  {
    var n := |p.extensions|;
    if i < n {
      var e := p.extensions[i];
      assert e in p.extensions;
      ExtensionKeyHasNoWhitespace(e.0);
      assert ' ' !in e.0 by { if k :| 0 <= k < |e.0| && e.0[k] == ' ' { assert IsAsciiWhitespace(e.0[k]); } }
      KeyOfPrefix(e.0, e.1);
    } else if i == n {
      assert lines[n + 1] == "oid" + " " + PointerOid(p.obj.oid);
      KeyOfPrefix("oid", PointerOid(p.obj.oid));
    } else {
      var digits :| Spells(digits, p.obj.size) && lines[n + 2] == "size " + digits;
      assert lines[n + 2] == "size" + " " + digits;
      KeyOfPrefix("size", digits);
    }
  }

  /** The first line that has no space, or whose key is not above the one before it, is refused. */
  lemma OutOfOrderIsRefused(contents: string, version: string, fields: seq<string>, n: nat)
    requires contents != "" && ByteLen(contents) < 1024 && version in VERSION_ALIASES
    requires NonBlank(Lines(contents)) == ["version " + version] + fields
    requires n < |fields| && ParseLines(fields[..n]).Success?
    requires ' ' !in fields[n] || (0 < n && !Less(KeyOf(fields[n - 1]), KeyOf(fields[n])))
    ensures Parse(contents) == Failure(UnexpectedLine(fields[n]))
  {
    VersionIsPlain(version);
    assert (["version " + version] + fields)[1..] == fields;
    if 0 < n { PreviousIsKey(fields[..n]); }
    LineOutOfOrder(ParseLines(fields[..n]).value, fields[n]);
    FoldNext(ParseLine, START, fields, n);
  }

  lemma LineOutOfOrder(st: ParseState, line: string)
    requires ' ' !in line || (st.previous.Some? && !Less(st.previous.value, KeyOf(line)))
    ensures ParseLine(st, line) == Failure(UnexpectedLine(line))
  {
  }

  lemma PreviousIsKey(lines: seq<string>)
    requires lines != [] && ParseLines(lines).Success?
    ensures ParseLines(lines).value.previous == Some(KeyOf(lines[|lines| - 1]))
  {
    var n := |lines| - 1;
    LineSetsPrevious(ParseLines(lines[..n]).value, lines[n]);
  }

  lemma LineSetsPrevious(st: ParseState, line: string)
    requires ParseLine(st, line).Success?
    ensures ParseLine(st, line).value.previous == Some(KeyOf(line))
  {
  }

  // ----- Insertion -----

  /** Another key of the map has this priority. */
  predicate IsTaken(es: Entries, key: string, priority: nat) {
    exists i :: 0 <= i < |es| && es[i].0 != key && ExtensionPriority(es[i].0) == Some(priority)
  }

  /** Inserting an extension: the key must have its form, the value must be a canonical pointer identifier, and no other
      key may have the priority; a key that is there already gets the new value. */
  lemma InsertionIsExact(p: Pointer, key: string, value: string)
    requires Valid(p)
    ensures var r := InsertExtension(p, key, value);
            if !IsExtensionKey(key) then r == Failure(InvalidExtensionKey(key))
            else if !IsExtensionValue(value) then r == Failure(InvalidExtensionValue(key))
            else if IsTaken(p.extensions, key, (key[4] - '0') as int) then r == Failure(DuplicatePriority((key[4] - '0') as int))
            else r.Success? && r.value.obj == p.obj && Valid(r.value)
                 && forall e :: e in r.value.extensions <==> e == (key, value) || (e in p.extensions && e.0 != key)
  {
    if IsExtensionKey(key) {
      ExtensionKeysAreExact(key, (key[4] - '0') as int);
      NormalizingIsIdentity(key, value);
      if InsertExtension(p, key, value).Success? {
        InsertContents(p.extensions, key, value);
        InsertExtensionKeepsValid(p, key, value);
      }
    } else if ExtensionPriority(key).Some? {
      ExtensionKeysAreExact(key, ExtensionPriority(key).value);
    }
  }

  // ----- Identifiers -----

  /** The text is the identifier in hexadecimal digits of either case, perhaps behind `sha256:` and between white space. */
  ghost predicate IsOidText(value: string, oid: Oid) {
    exists hex :: IsHexOf(hex, oid) && (Trim(value) == hex || Trim(value) == "sha256:" + hex)
  }

  predicate IsHexOf(hex: string, oid: Oid) {
    |hex| == 64 && forall i :: 0 <= i < 64 ==> IsHex(hex[i]) && oid[i] == ToLower(hex[i])
  }

  lemma HexReads(hex: string, oid: Oid)
    ensures OidFromHex(hex) == Success(oid) <==> IsHexOf(hex, oid)
  {
    if forall i :: 0 <= i < |hex| ==> IsHex(hex[i]) { HexLength(hex); }
    if IsHexOf(hex, oid) { assert OidFromHex(hex).value == oid; }
  }

  lemma OidPartsAreExact(parts: Option<(string, string)>, whole: string, oid: Oid)
    ensures OidOf(parts, whole) == Success(oid)
        <==> match parts case None => IsHexOf(whole, oid) case Some((algorithm, hex)) => algorithm == "sha256" && IsHexOf(hex, oid)
  {
    HexReads(whole, oid);
    if parts.Some? { HexReads(parts.value.1, oid); }
  }

  /** A text splits into these parts exactly if it is made of them. */
  lemma PartsOfText(s: string, algorithm: string, rest: string, c: char)
    requires c !in algorithm && c !in rest
    ensures SplitOnce(s, c) == Some((algorithm, rest)) <==> s == algorithm + [c] + rest
    ensures SplitOnce(s, c) == None <==> c !in s
  {
    SplitOnceAt(algorithm, c, rest);
  }

  lemma HexHasNoColon(hex: string, oid: Oid)
    requires IsHexOf(hex, oid)
    ensures ':' !in hex && hex != ""
  {
  }

  lemma TrimmedOidTexts(s: string, oid: Oid, algorithm: string)
    requires ':' !in algorithm && algorithm == "sha256"
    ensures OidOf(SplitOnce(s, ':'), s) == Success(oid)
        <==> exists hex :: IsHexOf(hex, oid) && (s == hex || s == algorithm + [':'] + hex)
  {
    var parts := SplitOnce(s, ':');
    OidPartsAreExact(parts, s, oid);
    if OidOf(parts, s) == Success(oid) {
      var hex := if parts.None? then s else parts.value.1;
      assert IsHexOf(hex, oid) && (s == hex || s == algorithm + [':'] + hex);
    }
    if hex :| IsHexOf(hex, oid) && (s == hex || s == algorithm + [':'] + hex) {
      HexHasNoColon(hex, oid);
      PartsOfText(s, algorithm, hex, ':');
    }
  }

  lemma OidTextUnfolds(value: string, oid: Oid)
    ensures IsOidText(value, oid)
        <==> exists hex :: IsHexOf(hex, oid) && (Trim(value) == hex || Trim(value) == "sha256" + [':'] + hex)
  {
    assert "sha256" + [':'] == "sha256:";
  }

  /** Exactly these texts are read as the identifier. */
  lemma OidTextsAreExact(value: string, oid: Oid)
    ensures NewOid(value) == Success(oid) <==> IsOidText(value, oid)
  {
    OidTextUnfolds(value, oid);
    TrimmedOidTexts(Trim(value), oid, "sha256");
  }

  /** The reported place is the first character that is no digit, in bytes. */
  lemma {:induction false} FirstBadIsFirst(s: string, ok: char -> bool)
    ensures match FirstBad(s, ok)
            case None => forall i :: 0 <= i < |s| ==> ok(s[i])
            case Some(at) => exists i: nat :: IsFirstBad(s, ok, i) && at == ByteLen(s[..i])
  {
    if s != "" && ok(s[0]) && FirstBad(s[1..], ok).Some? {
      FirstBadIsFirst(s[1..], ok);
      var i: nat :| IsFirstBad(s[1..], ok, i) && FirstBad(s[1..], ok).value == ByteLen(s[1..][..i]);
      BytesOfPrefix(s, i + 1);
      BadBehind(s, ok, i);
    } else if s != "" && !ok(s[0]) {
      assert ByteLen(s[..0]) == 0 && IsFirstBad(s, ok, 0);
    }
  }

  predicate IsFirstBad(s: string, ok: char -> bool, i: nat) {
    i < |s| && !ok(s[i]) && forall j :: 0 <= j < i ==> ok(s[j])
  }

  lemma BadBehind(s: string, ok: char -> bool, i: nat)
    requires s != "" && ok(s[0]) && IsFirstBad(s[1..], ok, i)
    ensures IsFirstBad(s, ok, i + 1)
  {
    assert forall j :: 0 < j < i + 1 ==> s[j] == s[1..][j - 1];
  }

  lemma BytesOfPrefix(s: string, i: nat)
    requires 0 < i <= |s|
    ensures ByteLen(s[..i]) == CharLen(s[0]) + ByteLen(s[1..][..i - 1])
  {
    assert s[..i] == [s[0]] + s[1..][..i - 1];
    ByteLenConcat([s[0]], s[1..][..i - 1]);
    assert ByteLen([s[0]]) == CharLen(s[0]);
  }

  // ----- The printed text -----

  function ExtensionText(es: Entries): string {
    if es == [] then "" else es[0].0 + " " + es[0].1 + "\n" + ExtensionText(es[1..])
  }

  lemma {:induction false} ExtensionTextIsLines(es: Entries)
    ensures Terminated(FieldLines(es)) == ExtensionText(es)
  {
    if es != [] {
      ExtensionTextIsLines(es[1..]);
      assert FieldLines(es)[1..] == FieldLines(es[1..]);
    }
  }

  lemma TerminatedParts(first: string, middle: seq<string>, last: string)
    ensures Terminated([first] + middle + [last]) == first + ['\n'] + Terminated(middle) + last + ['\n']
  {
    TerminatedAppend([first] + middle, last);
    assert ([first] + middle)[1..] == middle;
  }

  lemma FieldTexts(p: Pointer)
    ensures Line(("oid", PointerOid(p.obj.oid))) == "oid sha256:" + p.obj.oid
    ensures SizeLineOf(p) == "size " + Decimal(p.obj.size)
  {
  }

  /** What the printer writes: nothing for an empty object, otherwise the current version and the fields in order. */
  lemma RenderedText(p: Pointer)
    requires Valid(p)
    ensures Render(p)
         == if p.obj.size == 0 then ""
            else ("version " + POINTER_VERSION) + ['\n'] + ExtensionText(p.extensions)
                 + ("oid sha256:" + p.obj.oid) + ['\n'] + (("size " + Decimal(p.obj.size)) + ['\n'])
  {
    if p.obj.size != 0 {
      RenderIsText(p);
      FieldTexts(p);
      ExtensionTextIsLines(p.extensions);
      TerminatedParts("version " + POINTER_VERSION, FieldLines(p.extensions), Line(("oid", PointerOid(p.obj.oid))));
    }
  }
}
